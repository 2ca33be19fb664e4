/** Publishing a recomputed read model. */
module AtomicReplace {
  // A staging twin is filled, then swapped with the live table.
  import opened Options

  datatype Tables<T> = Tables(live: seq<T>, staging: seq<T>)

  /** How many inserts `rows` take at `batch` rows each. */
  function Inserts<T>(rows: seq<T>, batch: nat): nat
    requires batch > 0
    decreases |rows|
  {
    if rows == [] then 0 else 1 + Inserts(rows[Min(batch, |rows|)..], batch)
  }

  /** What the first `n` inserts put into the staging twin. */
  function Inserted<T>(rows: seq<T>, batch: nat, n: nat): seq<T>
    requires batch > 0
    decreases |rows|
  {
    if rows == [] || n == 0 then [] else rows[..Min(batch, |rows|)] + Inserted(rows[Min(batch, |rows|)..], batch, n - 1)
  }

  lemma {:induction false} AllInserted<T>(rows: seq<T>, batch: nat)
    requires batch > 0
    ensures Inserted(rows, batch, Inserts(rows, batch)) == rows
    decreases |rows|
  {
    if rows != [] {
      AllInserted(rows[Min(batch, |rows|)..], batch);
    }
  }

  /** One attempt; the server completes `left` statements before the publisher dies. */
  datatype Attempt<T> = Attempt(rows: seq<T>, batch: nat, left: nat, busy: bool)

  ghost function After<T>(t: Tables<T>, a: Attempt<T>): Tables<T>
    requires a.batch > 0
  {
    var n := Inserts(a.rows, a.batch);
    if a.busy || a.left == 0 then t
    else if a.left <= n then Tables(t.live, Inserted(a.rows, a.batch, a.left - 1))
    else if a.left == n + 1 then Tables(t.live, a.rows)
    else Tables(a.rows, if a.left == n + 2 then t.live else [])
  }

  /** The swap went through. */
  ghost predicate Swapped<T>(a: Attempt<T>)
    requires a.batch > 0
  {
    !a.busy && a.left >= Inserts(a.rows, a.batch) + 2
  }

  ghost predicate Batched<T(!new)>(attempts: seq<Attempt<T>>) { forall a <- attempts :: a.batch > 0 }

  ghost function AfterAll<T(!new)>(t: Tables<T>, attempts: seq<Attempt<T>>): Tables<T>
    requires Batched(attempts)
  {
    if attempts == [] then t else After(AfterAll(t, attempts[..|attempts|-1]), attempts[|attempts|-1])
  }

  lemma LiveChangesAtTheSwap<T>(t: Tables<T>, a: Attempt<T>)
    requires a.batch > 0
    ensures After(t, a).live == if Swapped(a) then a.rows else t.live
  {
  }

  /**
   Whatever attempts died where, the live table is the rows of the latest attempt that got to its swap,
   and nothing else.
   */
  lemma {:induction false} LiveIsOneCompleteRun<T(!new)>(t: Tables<T>, attempts: seq<Attempt<T>>, last: nat)
    requires Batched(attempts) && last <= |attempts|
    requires last > 0 ==> Swapped(attempts[last-1])
    requires forall i :: last <= i < |attempts| ==> !Swapped(attempts[i])
    ensures AfterAll(t, attempts).live == if last > 0 then attempts[last-1].rows else t.live
  {
    if attempts != [] {
      var n := |attempts| - 1;
      LiveChangesAtTheSwap(AfterAll(t, attempts[..n]), attempts[n]);
      hide Swapped, After;
      if last <= n {
        LiveIsOneCompleteRun(t, attempts[..n], last);
      }
    }
  }

  class Publisher<T> {
    var live: seq<T>
    var staging: seq<T>
    var left: nat

    constructor (live: seq<T>, staging: seq<T>, left: nat)
      ensures this.live == live && this.staging == staging && this.left == left
    {
      this.live, this.staging, this.left := live, staging, left;
    }

    ghost function Contents(): Tables<T>
      reads this
    {
      Tables(live, staging)
    }

    method TruncateStaging() returns (ok: bool)
      modifies this
      ensures ok == (old(left) > 0) && left == (if ok then old(left) - 1 else 0)
      ensures Contents() == if ok then Tables(old(live), []) else old(Contents())
    {
      ok := left > 0;
      if ok { left, staging := left - 1, []; }
    }

    method InsertStaging(rows: seq<T>) returns (ok: bool)
      modifies this
      ensures ok == (old(left) > 0) && left == (if ok then old(left) - 1 else 0)
      ensures Contents() == if ok then Tables(old(live), old(staging) + rows) else old(Contents())
    {
      ok := left > 0;
      if ok { left, staging := left - 1, staging + rows; }
    }

    method ExchangeTables() returns (ok: bool)
      modifies this
      ensures ok == (old(left) > 0) && left == (if ok then old(left) - 1 else 0)
      ensures Contents() == if ok then Tables(old(staging), old(live)) else old(Contents())
    {
      ok := left > 0;
      if ok { left, live, staging := left - 1, staging, live; }
    }

    /** The writer's loop: one insert a batch. */
    method WriteBatches(rows: seq<T>, batch: nat) returns (ok: bool)
      requires batch > 0
      modifies this
      ensures ok == (old(left) >= Inserts(rows, batch)) && left == (if ok then old(left) - Inserts(rows, batch) else 0)
      ensures live == old(live) && staging == old(staging) + Inserted(rows, batch, old(left))
    {
      hide Inserts, Inserted;
      var i := 0;
      assert rows[0..] == rows;
      while i < |rows|
        invariant 0 <= i <= |rows| && live == old(live) && left <= old(left)
        invariant old(left) - left + Inserts(rows[i..], batch) == Inserts(rows, batch)
        invariant staging + Inserted(rows[i..], batch, left) == old(staging) + Inserted(rows, batch, old(left))
      {
        var end := Min(i + batch, |rows|);
        OneInsert(rows, batch, i, left);
        ghost var before, had, rest := staging, left, Inserted(rows[end..], batch, if left > 0 then left - 1 else 0);
        ok := InsertStaging(rows[i..end]);
        if !ok {
          assert staging + [] == staging;
          return;
        }
        assert before + (rows[i..end] + rest) == staging + rest;
        i := end;
      }
      assert rows[i..] == [];
      NoInserts<T>(batch, left);
      assert staging + [] == staging;
      ok := true;
    }

    method AtomicFullReplace(rows: seq<T>, batch: nat, busy: bool)
      requires batch > 0
      modifies this
      ensures Contents() == After(old(Contents()), Attempt(rows, batch, old(left), busy))
    {
      if busy { return; }
      var ok := TruncateStaging();
      if !ok { return; }
      ghost var had := left;
      ok := WriteBatches(rows, batch);
      AllInserted(rows, batch);
      InsertedAll(rows, batch, had);
      if !ok { return; }
      assert staging == rows;
      ok := ExchangeTables();
      if !ok { return; }
      ok := TruncateStaging();
    }
  }

  lemma NoInserts<T>(batch: nat, n: nat)
    requires batch > 0
    ensures Inserts<T>([], batch) == 0 && Inserted<T>([], batch, n) == []
  {
  }

  lemma OneInsert<T>(rows: seq<T>, batch: nat, i: nat, n: nat)
    requires batch > 0 && i < |rows|
    ensures var end := Min(i + batch, |rows|);
            && Inserts(rows[i..], batch) == 1 + Inserts(rows[end..], batch)
            && Inserted(rows[i..], batch, n) == if n == 0 then []
              else rows[i..end] + Inserted(rows[end..], batch, n - 1)
  {
    var rest := rows[i..];
    assert rest[Min(batch, |rest|)..] == rows[Min(i + batch, |rows|)..];
    assert rest[..Min(batch, |rest|)] == rows[i..Min(i + batch, |rows|)];
  }

  lemma {:induction false} InsertedAll<T>(rows: seq<T>, batch: nat, n: nat)
    requires batch > 0
    ensures n >= Inserts(rows, batch) ==> Inserted(rows, batch, n) == rows
    decreases |rows|
  {
    if rows != [] && n > 0 {
      InsertedAll(rows[Min(batch, |rows|)..], batch, n - 1);
    }
  }
}
