/** The pool composition cache. */
module PoolCache {
  // A list kept up by events, against the chain's own pool map.
  import opened Options

  datatype Entry = Entry(poolAccount: string, assetA: int, assetB: int)

  /**
   Event arguments: absent, not the modern struct, or the modern struct with its asset fields as far as
   they are integers.
   */
  datatype Args = Undecodable | Legacy | Modern(pool: string, assetA: Option<nat>, assetB: Option<nat>)

  datatype Event = Created(args: Args) | Destroyed(args: Args) | Other

  datatype Listed = Listed(account: string, assets: Option<(int, int)>)

  /** What the indexer sees of a block: its runtime, whether that has a pool storage item, and the storage's pairs. */
  datatype Block = Block(spec: nat, codec: bool, pairs: seq<Listed>, events: seq<Event>, setStorage: bool)

  // ---------------------------------------------------------------- the chain

  type PoolMap = map<string, (int, int)>

  /** The pools a block's storage holds. */
  function MapOf(pairs: seq<Listed>): PoolMap {
    if pairs == [] then map[]
    else
      var rest, last := MapOf(pairs[..|pairs|-1]), pairs[|pairs|-1];
      if last.assets.Some? then rest[last.account := last.assets.value] else rest
  }

  /** Storage lists an account once. */
  ghost predicate IsListing(pairs: seq<Listed>) {
    forall i, j :: 0 <= i < j < |pairs| ==> pairs[i].account != pairs[j].account
  }

  /** A modern event with everything in place. */
  predicate IsComplete(e: Event) {
    e.Other? || (e.args.Modern? && e.args.pool != "" && e.args.assetA.Some? && e.args.assetB.Some?)
  }

  function ApplyEvent(m: PoolMap, e: Event): PoolMap
    requires IsComplete(e)
  {
    match e
    case Created(args) => m[args.pool := (args.assetA.value, args.assetB.value)]
    case Destroyed(args) => m - {args.pool}
    case Other => m
  }

  function Apply(m: PoolMap, events: seq<Event>): PoolMap
    requires forall e <- events :: IsComplete(e)
  {
    if events == [] then m else ApplyEvent(Apply(m, events[..|events|-1]), events[|events|-1])
  }

  /**
   How the pool map may change between consecutive blocks: by the block's own events, unless the runtime
   changed, a storage call was flagged, or an event does not say what it did.
   */
  ghost predicate Explained(before: Block, after: Block) {
    before.spec != after.spec || after.setStorage || (exists e <- after.events :: !IsComplete(e))
    || MapOf(after.pairs) == Apply(MapOf(before.pairs), after.events)
  }

  // ---------------------------------------------------------------- the cache

  datatype Cache = Cache(pools: Option<seq<Entry>>, bootstrapped: bool, supported: bool)

  const EMPTY := Cache(None, false, false)

  function InvalidateAll(c: Cache): Cache { c.(pools := None, bootstrapped := false) }

  function IndexOf(pools: seq<Entry>, account: string): Option<nat> {
    if pools == [] then None
    else
      var before := IndexOf(pools[..|pools|-1], account);
      if before.Some? then before else if pools[|pools|-1].poolAccount == account then Some(|pools| - 1) else None
  }

  function Without(pools: seq<Entry>, account: string): seq<Entry> {
    if pools == [] then []
    else Without(pools[..|pools|-1], account) + (if pools[|pools|-1].poolAccount == account then []
                                                 else [pools[|pools|-1]])
  }

  function WithEntry(pools: seq<Entry>, entry: Entry): seq<Entry> {
    var at := IndexOf(pools, entry.poolAccount);
    if at.Some? && at.value < |pools| then pools[at.value := entry] else pools + [entry]
  }

  /** One lifecycle event; absent when it cannot be applied and processing fails. */
  function ProcessEvent(c: Cache, e: Event): Option<Cache> {
    match e
    case Other => Some(c)
    case Created(args) =>
      if args.Undecodable? then None
      else if args.Legacy? then Some(InvalidateAll(c))
      else if c.pools.None? then Some(c)
      else if !IsComplete(e) then None
      else Some(c.(pools := Some(WithEntry(c.pools.value, Entry(args.pool, args.assetA.value, args.assetB.value)))))
    case Destroyed(args) =>
      if args.Undecodable? then None
      else if args.Legacy? then Some(InvalidateAll(c))
      else if args.pool == "" then None
      else if c.pools.None? then Some(c)
      else if !IsComplete(e) then None
      else Some(c.(pools := Some(Without(c.pools.value, args.pool))))
  }

  function ProcessEvents(c: Cache, events: seq<Event>): Option<Cache> {
    if events == [] then Some(c)
    else
      var before := ProcessEvents(c, events[..|events|-1]);
      if before.None? then None else ProcessEvent(before.value, events[|events|-1])
  }

  predicate AnyLifecycle(events: seq<Event>) { exists i :: 0 <= i < |events| && !events[i].Other? }

  function EntriesOf(pairs: seq<Listed>): seq<Entry> {
    if pairs == [] then []
    else
      var rest, last := EntriesOf(pairs[..|pairs|-1]), pairs[|pairs|-1];
      if last.assets.Some? then rest + [Entry(last.account, last.assets.value.0, last.assets.value.1)] else rest
  }

  datatype Read = Read(cache: Cache, pools: Option<seq<Entry>>)

  /** The pools at a block, absent before the pallet exists; nothing at all when a codec that once worked is gone. */
  function GetXYKPools(c: Cache, b: Block): Option<Read> {
    if !b.codec then (if c.supported then None else Some(Read(c, None)))
    else
      var d := c.(supported := true);
      if d.bootstrapped then Some(Read(d, d.pools))
      else
        var e := d.(pools := Some(EntriesOf(b.pairs)), bootstrapped := true);
        Some(Read(e, e.pools))
  }

  // ---------------------------------------------------------------- the block loop

  /** What the loop carries from block to block. */
  datatype Run = Run(cache: Cache, hasState: bool, previousSpec: Option<nat>)

  const START := Run(EMPTY, false, None)

  datatype Indexed = Indexed(run: Run, pools: Option<seq<Entry>>)

  function SpecChanged(r: Run, b: Block): bool { r.previousSpec.Some? && r.previousSpec.value != b.spec }

  /** Events are processed only when neither the first block nor an upgrade already forces a refresh. */
  function Maintained(r: Run, b: Block): Option<Cache> {
    var c := if SpecChanged(r, b) then InvalidateAll(r.cache) else r.cache;
    var d := if !r.hasState || SpecChanged(r, b) then Some(c) else ProcessEvents(c, b.events);
    if d.Some? && b.setStorage then Some(InvalidateAll(d.value)) else d
  }

  function IndexBlock(r: Run, b: Block): Option<Indexed> {
    var c := Maintained(r, b);
    if c.None? then None
    else
      var read := GetXYKPools(c.value, b);
      if read.None? then None else Some(Indexed(Run(read.value.cache, true, Some(b.spec)), read.value.pools))
  }

  /** The state after a run of blocks, unless something threw. */
  function After(blocks: seq<Block>): Option<Run> {
    if blocks == [] then Some(START)
    else
      var before := After(blocks[..|blocks|-1]);
      if before.None? then None
      else
        var next := IndexBlock(before.value, blocks[|blocks|-1]);
        if next.None? then None else Some(next.value.run)
  }

  // ---------------------------------------------------------------- the list is the map

  /** The list names every pool of the map once, with its assets, and nothing else. */
  ghost predicate Lists(pools: seq<Entry>, m: PoolMap) {
    && (forall i, j :: 0 <= i < j < |pools| ==> pools[i].poolAccount != pools[j].poolAccount)
    && (forall i :: 0 <= i < |pools| ==>
        pools[i].poolAccount in m && m[pools[i].poolAccount] == (pools[i].assetA, pools[i].assetB))
    && (forall a <- m :: Names(pools, a))
  }

  ghost predicate Names(pools: seq<Entry>, account: string) {
    exists i :: 0 <= i < |pools| && pools[i].poolAccount == account
  }

  lemma {:induction false} IndexOfFinds(pools: seq<Entry>, account: string)
    ensures match IndexOf(pools, account)
            case Some(i) => i < |pools| && pools[i].poolAccount == account
            case None => !Names(pools, account)
  {
    if pools != [] {
      var init, last := pools[..|pools|-1], pools[|pools|-1];
      IndexOfFinds(init, account);
      if IndexOf(init, account).None? {
        assert forall i :: 0 <= i < |init| ==> init[i].poolAccount != account;
      }
    }
  }

  lemma AddKeepsList(pools: seq<Entry>, m: PoolMap, e: Entry)
    requires Lists(pools, m)
    ensures Lists(WithEntry(pools, e), m[e.poolAccount := (e.assetA, e.assetB)])
  {
    IndexOfFinds(pools, e.poolAccount);
    var next, n := WithEntry(pools, e), m[e.poolAccount := (e.assetA, e.assetB)];
    forall a <- n
      ensures Names(next, a)
    {
      if a == e.poolAccount {
        var i := IndexOf(pools, a).Or(|pools|);
        assert next[i].poolAccount == a;
      } else {
        var i :| 0 <= i < |pools| && pools[i].poolAccount == a;
        assert next[i].poolAccount == a;
      }
    }
  }

  lemma {:induction false} WithoutKeeps(pools: seq<Entry>, account: string)
    ensures forall e :: e in Without(pools, account) <==> e in pools && e.poolAccount != account
    ensures (forall i, j :: 0 <= i < j < |pools| ==> pools[i].poolAccount != pools[j].poolAccount)
        ==> (forall i, j :: 0 <= i < j < |Without(pools, account)| ==>
             Without(pools, account)[i].poolAccount != Without(pools, account)[j].poolAccount)
  {
    if pools != [] {
      var init, last := pools[..|pools|-1], pools[|pools|-1];
      assert pools == init + [last];
      WithoutKeeps(init, account);
      var kept := Without(init, account);
      assert forall i :: 0 <= i < |kept| ==> kept[i] in kept;
    }
  }

  lemma RemoveKeepsList(pools: seq<Entry>, m: PoolMap, account: string)
    requires Lists(pools, m)
    ensures Lists(Without(pools, account), m - {account})
  {
    WithoutKeeps(pools, account);
    var next := Without(pools, account);
    assert forall i :: 0 <= i < |next| ==> next[i] in next;
    forall a <- m - {account}
      ensures Names(next, a)
    {
      var i :| 0 <= i < |pools| && pools[i].poolAccount == a;
      assert pools[i] in next;
    }
  }

  lemma {:induction false} BootstrapLists(pairs: seq<Listed>)
    requires IsListing(pairs)
    ensures Lists(EntriesOf(pairs), MapOf(pairs))
    ensures forall a <- MapOf(pairs) :: exists i :: 0 <= i < |pairs| && pairs[i].account == a
  {
    if pairs != [] {
      var init, last := pairs[..|pairs|-1], pairs[|pairs|-1];
      BootstrapLists(init);
      assert last.account !in MapOf(init);
      assert pairs[|pairs|-1].account == last.account;
      if last.assets.Some? {
        var e := Entry(last.account, last.assets.value.0, last.assets.value.1);
        IndexOfFinds(EntriesOf(init), e.poolAccount);
        AddKeepsList(EntriesOf(init), MapOf(init), e);
      }
      forall a <- MapOf(pairs)
        ensures exists i :: 0 <= i < |pairs| && pairs[i].account == a
      {
        if a != last.account {
          var i :| 0 <= i < |init| && init[i].account == a;
          assert pairs[i].account == a;
        }
      }
    }
  }

  /** A filled cache that has not been dropped has followed complete events only, one by one. */
  lemma {:induction false} EventsKeepList(c: Cache, m: PoolMap, events: seq<Event>)
    requires c.pools.Some? && Lists(c.pools.value, m) && ProcessEvents(c, events).Some?
    ensures var d := ProcessEvents(c, events).value;
            d.pools.Some? ==> (forall e <- events :: IsComplete(e)) && Lists(d.pools.value, Apply(m, events))
    ensures ProcessEvents(c, events).value.bootstrapped
      == (c.bootstrapped && ProcessEvents(c, events).value.pools.Some?)
    ensures ProcessEvents(c, events).value.supported == c.supported
  {
    if events != [] {
      var init, last := events[..|events|-1], events[|events|-1];
      EventsKeepList(c, m, init);
      assert events == init + [last];
      hide Lists;
      if ProcessEvents(c, init).value.pools.Some? {
        EventKeepsList(ProcessEvents(c, init).value, Apply(m, init), last);
      } else {
        DroppedStays(ProcessEvents(c, init).value, last);
      }
    }
  }

  lemma EventKeepsList(c: Cache, m: PoolMap, e: Event)
    requires c.pools.Some? && Lists(c.pools.value, m) && ProcessEvent(c, e).Some?
    ensures var d := ProcessEvent(c, e).value;
            && (d.pools.Some? ==> IsComplete(e) && Lists(d.pools.value, ApplyEvent(m, e)))
            && d.bootstrapped == (c.bootstrapped && d.pools.Some?) && d.supported == c.supported
  {
    hide Lists;
    if e.Created? && IsComplete(e) {
      AddKeepsList(c.pools.value, m, Entry(e.args.pool, e.args.assetA.value, e.args.assetB.value));
    } else if e.Destroyed? && IsComplete(e) {
      RemoveKeepsList(c.pools.value, m, e.args.pool);
    }
  }

  lemma DroppedStays(c: Cache, e: Event)
    requires c.pools.None? && !c.bootstrapped && ProcessEvent(c, e).Some?
    ensures var d := ProcessEvent(c, e).value; d.pools.None? && !d.bootstrapped && d.supported == c.supported
  {
  }

  // ---------------------------------------------------------------- runs

  ghost predicate IsChain(blocks: seq<Block>) {
    && (forall b <- blocks :: IsListing(b.pairs))
    && (forall i :: 0 < i < |blocks| ==> Explained(blocks[i-1], blocks[i]))
  }

  /** Between blocks: the cache is empty, or lists the last block's pools. */
  ghost predicate InStep(r: Run, last: Block) {
    && r.hasState && r.previousSpec == Some(last.spec)
    && r.cache.bootstrapped == r.cache.pools.Some?
      && (r.cache.pools.Some? ==> r.cache.supported && Lists(r.cache.pools.value, MapOf(last.pairs)))
  }

  /** The list returned for a block is the chain's pool map there; nothing is returned before the pallet exists. */
  ghost predicate Answers(pools: Option<seq<Entry>>, b: Block) {
    if b.codec then pools.Some? && Lists(pools.value, MapOf(b.pairs)) else pools.None?
  }

  lemma ReadLists(c: Cache, b: Block)
    requires IsListing(b.pairs) && c.bootstrapped == c.pools.Some?
      && (c.pools.Some? ==> c.supported && Lists(c.pools.value, MapOf(b.pairs)))
    requires GetXYKPools(c, b).Some?
    ensures var read := GetXYKPools(c, b).value;
            Answers(read.pools, b) && InStep(Run(read.cache, true, Some(b.spec)), b)
  {
    BootstrapLists(b.pairs);
  }

  lemma {:induction false} ProcessingAnEmptyCache(c: Cache, events: seq<Event>)
    requires c.pools.None? && !c.bootstrapped && ProcessEvents(c, events).Some?
    ensures ProcessEvents(c, events).value.pools.None? && !ProcessEvents(c, events).value.bootstrapped
  {
    if events != [] { ProcessingAnEmptyCache(c, events[..|events|-1]); }
  }

  /** What reaches the read lists the block's own pools, or is empty. */
  lemma MaintainedInStep(r: Run, last: Block, b: Block)
    requires InStep(r, last) && Explained(last, b) && Maintained(r, b).Some?
    ensures var c := Maintained(r, b).value;
            c.bootstrapped == c.pools.Some? && (c.pools.Some? ==> c.supported && Lists(c.pools.value, MapOf(b.pairs)))
  {
    if !SpecChanged(r, b) {
      if r.cache.pools.Some? {
        EventsKeepList(r.cache, MapOf(last.pairs), b.events);
      } else {
        ProcessingAnEmptyCache(r.cache, b.events);
      }
    }
  }

  lemma StepAnswers(r: Run, last: Block, b: Block)
    requires InStep(r, last) && Explained(last, b) && IsListing(b.pairs) && IndexBlock(r, b).Some?
    ensures Answers(IndexBlock(r, b).value.pools, b) && InStep(IndexBlock(r, b).value.run, b)
  {
    MaintainedInStep(r, last, b);
    hide Maintained, GetXYKPools, InStep, Answers, Lists;
    ReadLists(Maintained(r, b).value, b);
  }

  lemma FirstBlockAnswers(b: Block)
    requires IsListing(b.pairs) && IndexBlock(START, b).Some?
    ensures Answers(IndexBlock(START, b).value.pools, b) && InStep(IndexBlock(START, b).value.run, b)
  {
    hide GetXYKPools, Answers, Lists;
    ReadLists(Maintained(START, b).value, b);
  }

  lemma {:induction false} RunStaysInStep(blocks: seq<Block>)
    requires blocks != [] && IsChain(blocks) && After(blocks).Some?
    ensures InStep(After(blocks).value, blocks[|blocks|-1])
  {
    var n := |blocks| - 1;
    assert blocks[n] in blocks;
    if n == 0 {
      FirstBlockAnswers(blocks[0]);
    } else {
      ChainPrefix(blocks);
      RunStaysInStep(blocks[..n]);
      hide InStep, Explained, IndexBlock, IsListing;
      StepAnswers(After(blocks[..n]).value, blocks[n-1], blocks[n]);
    }
  }

  lemma ChainPrefix(blocks: seq<Block>)
    requires |blocks| > 1 && IsChain(blocks)
    ensures IsChain(blocks[..|blocks|-1]) && Explained(blocks[|blocks|-2], blocks[|blocks|-1])
  {
    assert forall b <- blocks[..|blocks|-1] :: b in blocks;
  }

  /** Over every run of consecutive blocks, the pools read at a block are the chain's pools at that block. */
  lemma CachedPoolsAreTheChains(blocks: seq<Block>, b: Block)
    requires IsChain(blocks + [b]) && After(blocks).Some? && IndexBlock(After(blocks).value, b).Some?
    ensures Answers(IndexBlock(After(blocks).value, b).value.pools, b)
  {
    assert (blocks + [b])[..|blocks|] == blocks && b in blocks + [b];
    if blocks == [] {
      FirstBlockAnswers(b);
    } else {
      ChainPrefix(blocks + [b]);
      RunStaysInStep(blocks);
      hide InStep, Explained, IndexBlock, IsListing, After;
      StepAnswers(After(blocks).value, blocks[|blocks|-1], b);
    }
  }

  predicate IsLegacy(e: Event) { !e.Other? && e.args.Legacy? }

  /** The list is cached, and no event before the `i`th has dropped it. */
  ghost predicate StillCached(c: Cache, events: seq<Event>, i: nat) {
    c.pools.Some? && forall j :: 0 <= j < i && j < |events| ==> !IsLegacy(events[j])
  }

  /**
   Arguments that no decoder reads; a pool destroyed without an account; or, while the list is cached, a
   field missing.
   */
  predicate CannotApply(e: Event, cached: bool) {
    !e.Other? && (e.args.Undecodable?
                  || (e.args.Modern? && ((e.Destroyed? && e.args.pool == "") || (cached && !IsComplete(e)))))
  }

  ghost predicate FailsAt(c: Cache, events: seq<Event>, i: nat) {
    i < |events| && CannotApply(events[i], StillCached(c, events, i))
  }

  lemma StillCachedPrefix(c: Cache, events: seq<Event>, i: nat)
    requires i < |events|
    ensures StillCached(c, events[..|events|-1], i) <==> StillCached(c, events, i)
    ensures FailsAt(c, events[..|events|-1], i) <==> i < |events| - 1 && FailsAt(c, events, i)
    ensures StillCached(c, events, |events|) <==> StillCached(c, events, |events| - 1) && !IsLegacy(events[|events|-1])
  {
    hide IsComplete;
    assert forall j :: 0 <= j < |events| - 1 ==> events[..|events|-1][j] == events[j];
  }

  lemma EventFailsExactly(c: Cache, e: Event)
    ensures ProcessEvent(c, e).None? <==> CannotApply(e, c.pools.Some?)
    ensures ProcessEvent(c, e).Some? ==> (ProcessEvent(c, e).value.pools.Some? <==> c.pools.Some? && !IsLegacy(e))
  {
  }

  lemma {:induction false} EventsFailExactly(c: Cache, events: seq<Event>)
    ensures ProcessEvents(c, events).None? <==> exists i: nat :: FailsAt(c, events, i)
    ensures ProcessEvents(c, events).Some? ==>
              (ProcessEvents(c, events).value.pools.Some? <==> StillCached(c, events, |events|))
  {
    if events != [] {
      var n := |events| - 1;
      var before := ProcessEvents(c, events[..n]);
      EventsFailExactly(c, events[..n]);
      StillCachedPrefix(c, events, n);
      hide StillCached, IsLegacy, ProcessEvent, CannotApply;
      if before.Some? {
        EventFailsExactly(before.value, events[n]);
        assert FailsAt(c, events, n) <==> ProcessEvent(before.value, events[n]).None?;
      }
      forall i: nat | i < n ensures FailsAt(c, events[..n], i) <==> FailsAt(c, events, i) {
        StillCachedPrefix(c, events, i);
      }
    }
  }

  /**
   A block stops the run exactly when one of its events cannot be applied and its events are processed, or
   when a storage codec that once worked is gone.
   */
  lemma ThrowsExactly(r: Run, last: Block, b: Block)
    requires InStep(r, last)
    ensures IndexBlock(r, b).None? <==>
              || (last.spec == b.spec && exists i: nat :: FailsAt(r.cache, b.events, i))
              || (!b.codec && r.cache.supported)
  {
    EventsFailExactly(r.cache, b.events);
    if !SpecChanged(r, b) { SupportStays(r.cache, b.events); }
  }

  lemma {:induction false} SupportStays(c: Cache, events: seq<Event>)
    ensures ProcessEvents(c, events).Some? ==> ProcessEvents(c, events).value.supported == c.supported
  {
    if events != [] { SupportStays(c, events[..|events|-1]); }
  }

  // ---------------------------------------------------------------- the class

  class PoolCompositionCache {
    var xykPools: Option<seq<Entry>>
    var xykBootstrapped: bool
    var xykSupported: bool

    constructor ()
      ensures Contents() == EMPTY
    {
      xykPools, xykBootstrapped, xykSupported := None, false, false;
    }

    ghost function Contents(): Cache
      reads this
    {
      Cache(xykPools, xykBootstrapped, xykSupported)
    }

    method Invalidate()
      modifies this
      ensures Contents() == InvalidateAll(old(Contents()))
    {
      xykBootstrapped, xykPools := false, None;
    }

    method Process(e: Event) returns (ok: bool)
      modifies this
      ensures ok <==> ProcessEvent(old(Contents()), e).Some?
      ensures ok ==> Contents() == ProcessEvent(old(Contents()), e).value
    {
      match e
      case Other => return true;
      case Created(args) =>
        if args.Undecodable? { return false; }
        if args.Legacy? {
          Invalidate();
        } else if xykPools.Some? {
          if !IsComplete(e) { return false; }
          var entry := Entry(args.pool, args.assetA.value, args.assetB.value);
          var existingIndex := IndexOf(xykPools.value, entry.poolAccount);
          IndexOfFinds(xykPools.value, entry.poolAccount);
          if existingIndex.None? {
            xykPools := Some(xykPools.value + [entry]);
          } else {
            xykPools := Some(xykPools.value[existingIndex.value := entry]);
          }
        }
        return true;
      case Destroyed(args) =>
        if args.Undecodable? { return false; }
        if args.Legacy? {
          Invalidate();
          return true;
        }
        if args.pool == "" { return false; }
        if xykPools.Some? {
          if !IsComplete(e) { return false; }
          xykPools := Some(Without(xykPools.value, args.pool));
        }
        return true;
    }

    /** `ok` is false when an event's arguments make it throw. */
    method ProcessAll(events: seq<Event>) returns (ok: bool, xykChanged: bool)
      modifies this
      ensures ok <==> ProcessEvents(old(Contents()), events).Some?
      ensures ok ==> Contents() == ProcessEvents(old(Contents()), events).value
      ensures ok ==> xykChanged == AnyLifecycle(events)
    {
      ok, xykChanged := true, false;
      assert events[..0] == [];
      for i := 0 to |events|
        invariant ProcessEvents(old(Contents()), events[..i]) == Some(Contents())
        invariant xykChanged == AnyLifecycle(events[..i])
      {
        assert events[..i+1][..i] == events[..i];
        assert AnyLifecycle(events[..i+1]) == (AnyLifecycle(events[..i]) || !events[i].Other?) by {
          assert events[..i+1][i] == events[i];
          assert forall j :: 0 <= j < i ==> events[..i+1][j] == events[..i][j];
        }
        ok := Process(events[i]);
        if !ok {
          Throws(old(Contents()), events, i);
          return;
        }
        xykChanged := xykChanged || !events[i].Other?;
      }
      assert events[..|events|] == events;
      ok := true;
    }

    method Pools(b: Block) returns (ok: bool, pools: Option<seq<Entry>>)
      modifies this
      ensures ok <==> GetXYKPools(old(Contents()), b).Some?
      ensures ok ==> Read(Contents(), pools) == GetXYKPools(old(Contents()), b).value
    {
      if !b.codec { return !xykSupported, None; }
      xykSupported := true;
      if !xykBootstrapped {
        xykPools, xykBootstrapped := Some(EntriesOf(b.pairs)), true;
      }
      return true, xykPools;
    }
  }

  lemma {:induction false} Throws(c: Cache, events: seq<Event>, i: nat)
    requires i < |events| && ProcessEvents(c, events[..i]).Some?
      && ProcessEvent(ProcessEvents(c, events[..i]).value, events[i]).None?
    ensures ProcessEvents(c, events).None?
    decreases |events|
  {
    var n := |events| - 1;
    if i < n {
      assert events[..n][..i] == events[..i];
      Throws(c, events[..n], i);
    }
  }

  /** The part of the block loop around the cache. */
  class RawRun {
    const compositionCache: PoolCompositionCache
    var hasState: bool
    var previousSpecVersion: Option<nat>

    constructor ()
      ensures fresh(compositionCache) && State() == START
    {
      compositionCache := new PoolCompositionCache();
      hasState, previousSpecVersion := false, None;
    }

    ghost function State(): Run
      reads this, compositionCache
    {
      Run(compositionCache.Contents(), hasState, previousSpecVersion)
    }

    /** `refreshXyk` is what the cache contributes to the decision to read reserves again. */
    method Step(b: Block) returns (ok: bool, pools: Option<seq<Entry>>, refreshXyk: bool)
      modifies this, compositionCache
      ensures ok <==> IndexBlock(old(State()), b).Some?
      ensures ok ==> Indexed(State(), pools) == IndexBlock(old(State()), b).value
      ensures ok ==>
        refreshXyk == (!old(hasState) || SpecChanged(old(State()), b) || b.setStorage || AnyLifecycle(b.events))
    {
      var specChanged := previousSpecVersion.Some? && previousSpecVersion.value != b.spec;
      if specChanged { compositionCache.Invalidate(); }
      previousSpecVersion := Some(b.spec);
      ok, pools, refreshXyk := true, None, true;
      if hasState && !specChanged {
        ok, refreshXyk := compositionCache.ProcessAll(b.events);
        if !ok { return; }
      }
      if b.setStorage {
        compositionCache.Invalidate();
        refreshXyk := true;
      }
      ok, pools := compositionCache.Pools(b);
      hasState := true;
    }
  }
}
