/** Workers that share one counter. */
module Workers {
  // The theorems hold under every interleaving.
  import opened Options

  datatype Worker = Ready | Handling(index: nat) | Returned

  /** Every index below `n`, once each. */
  ghost predicate IsOrderOf(order: seq<nat>, n: nat) {
    && (forall i :: i in order <==> 0 <= i < n)
    && (forall i, j :: 0 <= i < j < |order| ==> order[i] != order[j])
  }

  function InFlight(workers: seq<Worker>): nat {
    if workers == [] then 0 else InFlight(workers[..|workers|-1]) + (if workers[|workers|-1].Handling? then 1 else 0)
  }

  lemma {:induction false} InFlightBound(workers: seq<Worker>)
    ensures InFlight(workers) <= |workers|
  {
    if workers != [] { InFlightBound(workers[..|workers|-1]); }
  }

  function Weight(w: Worker): nat {
    match w
    case Ready => 1
    case Handling(_) => 2
    case Returned => 0
  }

  function Load(workers: seq<Worker>): nat {
    if workers == [] then 0 else Load(workers[..|workers|-1]) + Weight(workers[|workers|-1])
  }

  lemma {:induction false} LoadChanges(workers: seq<Worker>, w: nat, state: Worker)
    requires w < |workers|
    ensures Load(workers[w := state]) == Load(workers) - Weight(workers[w]) + Weight(state)
  {
    var n := |workers| - 1;
    if w < n {
      LoadChanges(workers[..n], w, state);
      assert workers[w := state][..n] == workers[..n][w := state];
    } else {
      assert workers[w := state][..n] == workers[..n];
    }
  }

  /** Taken indices are handled already or in some worker's hands, in one place each. */
  ghost predicate Shared(workers: seq<Worker>, order: seq<nat>, taken: nat) {
    && (forall i :: 0 <= i < taken ==> i in order || exists w :: 0 <= w < |workers| && workers[w] == Handling(i))
    && (forall i <- order :: i < taken)
    && (forall i, j :: 0 <= i < j < |order| ==> order[i] != order[j])
    && (forall w :: 0 <= w < |workers| && workers[w].Handling? ==>
        workers[w].index < taken && workers[w].index !in order)
    && (forall w, v :: 0 <= w < v < |workers| && workers[w].Handling? && workers[v].Handling? ==>
        workers[w].index != workers[v].index)
  }

  /**
   The workers' loop. Which worker moves next is any choice at all; `order` is the order in which
   handlers complete, and `peak` the most of them ever in flight. Without a worker nothing is handled.
   */
  method ForEachConcurrent(n: nat, concurrency: int) returns (order: seq<nat>, peak: nat)
    ensures concurrency > 0 ==> IsOrderOf(order, n)
    ensures concurrency <= 0 ==> order == []
    ensures peak <= Max(0, concurrency)
  {
    hide Shared, Load, InFlight;
    var workers := seq(Max(0, Min(concurrency, n)), _ => Ready);
    var nextIndex := 0;
    NothingTaken(workers);
    order, peak := [], 0;
    while exists w :: 0 <= w < |workers| && !workers[w].Returned?
      invariant |workers| == Max(0, Min(concurrency, n)) && peak <= |workers|
      invariant workers == [] ==> order == []
      invariant Shared(workers, order, Min(nextIndex, n))
      invariant forall w :: 0 <= w < |workers| && workers[w].Returned? ==> nextIndex >= n
      decreases 3 * (n - Min(nextIndex, n)) + Load(workers)
    {
      var w :| 0 <= w < |workers| && !workers[w].Returned?;
      if workers[w].Ready? {
        var index := nextIndex;
        nextIndex := nextIndex + 1;
        if index >= n {
          LoadChanges(workers, w, Returned);
          Moves(workers, order, n, w, Returned);
          workers := workers[w := Returned];
        } else {
          LoadChanges(workers, w, Handling(index));
          Takes(workers, order, index, w);
          workers := workers[w := Handling(index)];
        }
      } else {
        LoadChanges(workers, w, Ready);
        Completes(workers, order, Min(nextIndex, n), w);
        order := order + [workers[w].index];
        workers := workers[w := Ready];
      }
      InFlightBound(workers);
      peak := Max(peak, InFlight(workers));
    }
    if concurrency > 0 {
      assert n > 0 ==> workers[0].Returned? && nextIndex >= n;
      AllReturned(workers, order, n);
    }
  }

  lemma NothingTaken(workers: seq<Worker>)
    requires forall w :: 0 <= w < |workers| ==> workers[w].Ready?
    ensures Shared(workers, [], 0)
  {
  }

  lemma AllReturned(workers: seq<Worker>, order: seq<nat>, n: nat)
    requires Shared(workers, order, n) && forall w :: 0 <= w < |workers| ==> workers[w].Returned?
    ensures IsOrderOf(order, n)
  {
  }

  lemma Moves(workers: seq<Worker>, order: seq<nat>, taken: nat, w: nat, state: Worker)
    requires Shared(workers, order, taken) && w < |workers| && workers[w].Ready? && !state.Handling?
    ensures Shared(workers[w := state], order, taken)
  {
    var next := workers[w := state];
    forall i | 0 <= i < taken && i !in order
      ensures exists v :: 0 <= v < |next| && next[v] == Handling(i)
    {
      var v :| 0 <= v < |workers| && workers[v] == Handling(i);
      assert next[v] == Handling(i);
    }
  }

  lemma Takes(workers: seq<Worker>, order: seq<nat>, index: nat, w: nat)
    requires Shared(workers, order, index) && w < |workers| && workers[w].Ready?
    ensures Shared(workers[w := Handling(index)], order, index + 1)
  {
    var next := workers[w := Handling(index)];
    forall i | 0 <= i < index + 1 && i !in order
      ensures exists v :: 0 <= v < |next| && next[v] == Handling(i)
    {
      if i == index {
        assert next[w] == Handling(i);
      } else {
        var v :| 0 <= v < |workers| && workers[v] == Handling(i);
        assert next[v] == Handling(i);
      }
    }
  }

  lemma Completes(workers: seq<Worker>, order: seq<nat>, taken: nat, w: nat)
    requires Shared(workers, order, taken) && w < |workers| && workers[w].Handling?
    ensures Shared(workers[w := Ready], order + [workers[w].index], taken)
  {
    var next, done := workers[w := Ready], order + [workers[w].index];
    forall i | 0 <= i < taken && i !in done
      ensures exists v :: 0 <= v < |next| && next[v] == Handling(i)
    {
      assert i !in order && i != workers[w].index;
      var v :| 0 <= v < |workers| && workers[v] == Handling(i);
      assert next[v] == Handling(i);
    }
  }
}
