/** A pool's outstanding shares. */
module LpShares {
  import opened Options
  import opened Sorting

  /** One holder's balance of the share token, as observed in a block. */
  datatype Observation = Observation(account: string, block: int, id: int, total: nat)

  /** The window's order: by block, then by observation. */
  predicate Before(a: Observation, b: Observation) { a.block < b.block || (a.block == b.block && a.id < b.id) }

  /** The table's key, which replaces by it: one row for a holder's observation. */
  ghost predicate UniqueKeys(table: seq<Observation>) {
    forall i, j :: 0 <= i < j < |table| && table[i].account == table[j].account ==>
      table[i].block != table[j].block || table[i].id != table[j].id
  }

  // ---------------------------------------------------------------- the query

  /** `lagInFrame(total, 1, 0)`: the holder's last total among the preceding rows. */
  function Lag(rows: seq<Observation>, account: string): int {
    if rows == [] then 0
    else if rows[|rows|-1].account == account then rows[|rows|-1].total
    else Lag(rows[..|rows|-1], account)
  }

  /** `sum(delta) GROUP BY block_height`. */
  function BlockDelta(rows: seq<Observation>, block: int): int {
    if rows == [] then 0
    else
      var init, last := rows[..|rows|-1], rows[|rows|-1];
      BlockDelta(init, block) + (if last.block == block then last.total - Lag(init, last.account) else 0)
  }

  /** The running sum over the emitted blocks, in order. */
  function RunningTotal(rows: seq<Observation>, blocks: seq<int>, k: nat): int
    requires k < |blocks|
  {
    (if k == 0 then 0 else RunningTotal(rows, blocks, k - 1)) + BlockDelta(rows, blocks[k])
  }

  /** The emitted blocks: those with an observation, in order. */
  ghost predicate AreEmitted(blocks: seq<int>, table: seq<Observation>) {
    && (forall i, j :: 0 <= i < j < |blocks| ==> blocks[i] < blocks[j])
    && (forall b :: b in blocks <==> exists o <- table :: o.block == b)
  }

  // ---------------------------------------------------------------- what it should be

  /** A holder's latest balance observed at or before a block; zero before the first. */
  ghost predicate IsBalance(table: seq<Observation>, account: string, block: int, balance: int) {
    if exists o <- table :: o.account == account && o.block <= block
    then exists o <- table :: IsLatest(table, account, block, o) && o.total == balance
    else balance == 0
  }

  ghost predicate IsLatest(table: seq<Observation>, account: string, block: int, o: Observation) {
    && o.account == account && o.block <= block
    && forall p <- table :: p.account == account && p.block <= block ==>
         p.block < o.block || (p.block == o.block && p.id <= o.id)
  }

  function Sum(accounts: seq<string>, balance: string -> int): int {
    if accounts == [] then 0 else Sum(accounts[..|accounts|-1], balance) + balance(accounts[|accounts|-1])
  }

  ghost predicate AreHolders(accounts: seq<string>, table: seq<Observation>) {
    && (forall i, j :: 0 <= i < j < |accounts| ==> accounts[i] != accounts[j])
    && (forall o <- table :: o.account in accounts)
  }

  // ---------------------------------------------------------------- proof

  ghost predicate InBlockOrder(rows: seq<Observation>) {
    forall i, j :: 0 <= i < j < |rows| ==> rows[i].block <= rows[j].block
  }

  /** The deltas of all rows up to a block. */
  function Upto(rows: seq<Observation>, block: int): int {
    if rows == [] then 0
    else
      var init, last := rows[..|rows|-1], rows[|rows|-1];
      Upto(init, block) + (if last.block <= block then last.total - Lag(init, last.account) else 0)
  }

  /** The holder's balance by the rows up to a block. */
  function Balance(rows: seq<Observation>, account: string, block: int): int {
    if rows == [] then 0
    else if rows[|rows|-1].account == account && rows[|rows|-1].block <= block then rows[|rows|-1].total
    else Balance(rows[..|rows|-1], account, block)
  }

  lemma {:induction false} NoRowsBetween(rows: seq<Observation>, lo: int, hi: int)
    requires lo < hi && forall o <- rows :: o.block <= lo || o.block >= hi
    ensures Upto(rows, hi) == Upto(rows, lo) + BlockDelta(rows, hi)
  {
    if rows != [] {
      assert rows[|rows|-1] in rows;
      NoRowsBetween(rows[..|rows|-1], lo, hi);
    }
  }

  lemma {:induction false} NoRowsBelow(rows: seq<Observation>, lo: int)
    requires forall o <- rows :: o.block > lo
    ensures Upto(rows, lo) == 0
  {
    if rows != [] {
      assert rows[|rows|-1] in rows;
      NoRowsBelow(rows[..|rows|-1], lo);
    }
  }

  lemma {:induction false} RunningIsUpto(rows: seq<Observation>, blocks: seq<int>, k: nat)
    requires AreEmitted(blocks, rows) && k < |blocks|
    ensures RunningTotal(rows, blocks, k) == Upto(rows, blocks[k])
  {
    forall o <- rows
      ensures o.block in blocks
    {
    }
    if k == 0 {
      NoRowsBelow(rows, blocks[0] - 1);
      NoRowsBetween(rows, blocks[0] - 1, blocks[0]);
    } else {
      RunningIsUpto(rows, blocks, k - 1);
      NoRowsBetween(rows, blocks[k - 1], blocks[k]);
    }
  }

  lemma {:induction false} BalanceIsLag(rows: seq<Observation>, account: string, block: int)
    requires forall o <- rows :: o.block <= block
    ensures Balance(rows, account, block) == Lag(rows, account)
  {
    if rows != [] {
      assert rows[|rows|-1] in rows;
      BalanceIsLag(rows[..|rows|-1], account, block);
    }
  }

  lemma {:induction false} SumChanges(accounts: seq<string>, f: string -> int, g: string -> int, changed: string)
    requires forall i, j :: 0 <= i < j < |accounts| ==> accounts[i] != accounts[j]
    requires forall a <- accounts :: a != changed ==> f(a) == g(a)
    ensures Sum(accounts, g) - Sum(accounts, f) == if changed in accounts then g(changed) - f(changed) else 0
  {
    if accounts != [] {
      var others, a := accounts[..|accounts|-1], accounts[|accounts|-1];
      assert a in accounts;
      SumChanges(others, f, g, changed);
      assert accounts == others + [a];
    }
  }

  /** Telescoping: the deltas up to a block add up to the balances at it. */
  lemma {:induction false} UptoIsHolderSum(rows: seq<Observation>, accounts: seq<string>, block: int)
    requires InBlockOrder(rows) && AreHolders(accounts, rows)
    ensures Upto(rows, block) == Sum(accounts, a => Balance(rows, a, block))
  {
    if rows == [] {
      SumOfNothing(accounts, a => Balance(rows, a, block));
    } else {
      var init, last := rows[..|rows|-1], rows[|rows|-1];
      assert last in rows;
      UptoIsHolderSum(init, accounts, block);
      var f, g := (a: string) => Balance(init, a, block), (a: string) => Balance(rows, a, block);
      SumChanges(accounts, f, g, last.account);
      if last.block <= block { BalanceIsLag(init, last.account, block); }
    }
  }

  lemma {:induction false} SumOfNothing(accounts: seq<string>, f: string -> int)
    requires forall a :: f(a) == 0
    ensures Sum(accounts, f) == 0
  {
    if accounts != [] { SumOfNothing(accounts[..|accounts|-1], f); }
  }

  lemma {:induction false} SumOfSame(accounts: seq<string>, f: string -> int, g: string -> int)
    requires forall a <- accounts :: f(a) == g(a)
    ensures Sum(accounts, f) == Sum(accounts, g)
  {
    if accounts != [] {
      assert accounts[|accounts|-1] in accounts;
      SumOfSame(accounts[..|accounts|-1], f, g);
    }
  }

  lemma BeforeIsAnOrder()
    ensures StrictWeakOrder(Before)
  {
  }

  /** In window order, the last matching row is the latest one. */
  lemma {:induction false} BalanceIsLatest(rows: seq<Observation>, account: string, block: int)
    requires InOrder(Before, rows)
    ensures IsBalance(rows, account, block, Balance(rows, account, block))
  {
    if rows != [] {
      var init, last := rows[..|rows|-1], rows[|rows|-1];
      assert last in rows && rows == init + [last];
      if last.account == account && last.block <= block {
        assert IsLatest(rows, account, block, last);
      } else {
        BalanceIsLatest(init, account, block);
        if exists o <- init :: o.account == account && o.block <= block {
          var o :| o in init && IsLatest(init, account, block, o) && o.total == Balance(init, account, block);
          assert o in rows && IsLatest(rows, account, block, o);
        }
      }
    }
  }

  lemma BalanceIsUnique(table: seq<Observation>, rows: seq<Observation>, account: string, block: int, x: int, y: int)
    requires UniqueKeys(table) && forall o :: o in table <==> o in rows
    requires IsBalance(table, account, block, x) && IsBalance(rows, account, block, y)
    ensures x == y
  {
    if o :| o in table && o.account == account && o.block <= block {
      var p :| p in table && IsLatest(table, account, block, p) && p.total == x;
      var q :| q in rows && IsLatest(rows, account, block, q) && q.total == y;
      var i :| 0 <= i < |table| && table[i] == p;
      var j :| 0 <= j < |table| && table[j] == q;
      assert p.block == q.block && p.id == q.id;
    }
  }

  /** At every emitted block the reconstruction is the sum of every holder's latest balance observed so far. */
  lemma TotalSharesAreHolderSums(table: seq<Observation>, blocks: seq<int>, k: nat, accounts: seq<string>,
                                 balance: string -> int)
    requires UniqueKeys(table) && AreEmitted(blocks, table) && k < |blocks| && AreHolders(accounts, table)
    requires forall a :: IsBalance(table, a, blocks[k], balance(a))
    ensures RunningTotal(Sorted(Before, table), blocks, k) == Sum(accounts, balance)
  {
    hide IsBalance, UniqueKeys;
    var rows := Sorted(Before, table);
    BeforeIsAnOrder();
    SortedIsSorted(Before, table);
    RunningIsUpto(rows, blocks, k);
    UptoIsHolderSum(rows, accounts, blocks[k]);
    forall a <- accounts
      ensures Balance(rows, a, blocks[k]) == balance(a)
    {
      BalanceIsLatest(rows, a, blocks[k]);
      BalanceIsUnique(table, rows, a, blocks[k], balance(a), Balance(rows, a, blocks[k]));
    }
    SumOfSame(accounts, a => Balance(rows, a, blocks[k]), balance);
  }
}
