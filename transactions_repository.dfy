/**
 * The ledger accessor: the balance is a full scan of the stored
 * transactions, adding each value to `income` when its type is "income"
 * and to `outcome` otherwise, with `total = income - outcome`.
 */
module TransactionsRepository {
  import opened Models
  import opened Storage

  /** The value a transaction adds to the income side (`income`) or the outcome side (`!income`). */
  function Share(t: Transaction, income: bool): int {
    if IsIncome(t.kind) == income then t.value else 0
  }

  /** The sum of the values of the transactions on one side of the balance. */
  function SumOf(ts: seq<Transaction>, income: bool): int {
    if ts == [] then 0 else SumOf(ts[..|ts| - 1], income) + Share(ts[|ts| - 1], income)
  }

  /** The sum of all values, whatever the type. */
  function TotalValue(ts: seq<Transaction>): int {
    if ts == [] then 0 else ts[0].value + TotalValue(ts[1..])
  }

  /** The balance the accessor reports for `ts`. */
  function BalanceOf(ts: seq<Transaction>): Balance {
    var income, outcome := SumOf(ts, true), SumOf(ts, false);
    Balance(income, outcome, income - outcome)
  }

  /** `getBalance`: one pass over the stored transactions. */
  method GetBalance(store: Store) returns (b: Balance)
    ensures b == BalanceOf(store.transactions)
    ensures b.income == SumOf(store.transactions, true)
    ensures b.outcome == SumOf(store.transactions, false)
    ensures b.total == b.income - b.outcome
    ensures store.transactions == [] ==> b == Balance(0, 0, 0)
  {
    var repository := store.transactions;
    var income, outcome := 0, 0;
    var i := 0;
    while i < |repository|
      invariant i <= |repository|
      invariant income == SumOf(repository[..i], true)
      invariant outcome == SumOf(repository[..i], false)
    {
      var transaction := repository[i];
      assert repository[..i + 1][..i] == repository[..i];
      if transaction.kind == "income" {
        income := income + transaction.value;
      } else {
        outcome := outcome + transaction.value;
      }
      i := i + 1;
    }
    assert repository[..i] == repository;
    var total := income - outcome;
    b := Balance(income, outcome, total);
  }

  /** Appending one transaction adds its value to exactly one side. */
  lemma SumAppend(ts: seq<Transaction>, t: Transaction, income: bool)
    ensures SumOf(ts + [t], income) == SumOf(ts, income) + Share(t, income)
  {
    assert (ts + [t])[..|ts|] == ts;
  }

  /** `b` with `value` added on the income side (`income`) or the outcome side (`!income`). */
  function Added(b: Balance, income: bool, value: int): Balance {
    if income then Balance(b.income + value, b.outcome, b.total + value)
    else Balance(b.income, b.outcome + value, b.total - value)
  }

  /**
   * Appending an income transaction of value v raises income and total by v
   * and leaves outcome alone; any other type raises outcome by v and lowers
   * total by v.
   */
  lemma BalanceAppend(ts: seq<Transaction>, t: Transaction)
    ensures BalanceOf(ts + [t]) == Added(BalanceOf(ts), IsIncome(t.kind), t.value)
  {
    SumAppend(ts, t, true);
    SumAppend(ts, t, false);
  }

  /** Each side of the balance distributes over concatenation. */
  lemma {:induction false} SumConcat(a: seq<Transaction>, b: seq<Transaction>, income: bool)
    ensures SumOf(a + b, income) == SumOf(a, income) + SumOf(b, income)
  {
    if b == [] {
      assert a + b == a;
    } else {
      var init, last := b[..|b| - 1], b[|b| - 1];
      assert b == init + [last];
      assert a + b == (a + init) + [last];
      SumConcat(a, init, income);
      SumAppend(a + init, last, income);
      SumAppend(init, last, income);
    }
  }

  /** Each side of the balance depends only on the multiset of transactions, not on their order. */
  lemma {:induction false} SumPermutation(a: seq<Transaction>, b: seq<Transaction>, income: bool)
    requires multiset(a) == multiset(b)
    ensures SumOf(a, income) == SumOf(b, income)
    decreases |a|
  {
    if a == [] {
      assert |multiset(b)| == 0;
    } else {
      var init, last := a[..|a| - 1], a[|a| - 1];
      assert last in multiset(b) by {
        assert a == init + [last];
      }
      var i :| 0 <= i < |b| && b[i] == last;
      var rest := b[..i] + b[i + 1..];
      RemoveLast(a, b, i);
      SumPermutation(init, rest, income);
      SumAppend(init, last, income);
      SumRemoved(b, i, income);
    }
  }

  /** Dropping the last element of `a` and a matching element of `b` keeps the multisets equal. */
  lemma RemoveLast(a: seq<Transaction>, b: seq<Transaction>, i: nat)
    requires multiset(a) == multiset(b) && a != [] && i < |b| && b[i] == a[|a| - 1]
    ensures multiset(a[..|a| - 1]) == multiset(b[..i] + b[i + 1..])
  {
    var init, last := a[..|a| - 1], a[|a| - 1];
    assert a == init + [last];
    assert b == b[..i] + [last] + b[i + 1..];
    assert multiset(b) == multiset(b[..i] + b[i + 1..]) + multiset{last};
    assert multiset(init) == multiset(a) - multiset{last};
  }

  /** Removing the element at `i` takes its share off the side's sum. */
  lemma SumRemoved(b: seq<Transaction>, i: nat, income: bool)
    requires i < |b|
    ensures SumOf(b, income) == SumOf(b[..i] + b[i + 1..], income) + Share(b[i], income)
  {
    var before, after := b[..i], b[i + 1..];
    assert b == before + [b[i]] + after;
    SumConcat(before, after, income);
    SumConcat(before + [b[i]], after, income);
    SumAppend(before, b[i], income);
  }

  /** A permuted sequence of transactions has the same balance. */
  lemma BalancePermutation(a: seq<Transaction>, b: seq<Transaction>)
    requires multiset(a) == multiset(b)
    ensures BalanceOf(a) == BalanceOf(b)
  {
    SumPermutation(a, b, true);
    SumPermutation(a, b, false);
  }

  /** Every transaction lands on exactly one side: income plus outcome is the sum of all values. */
  lemma {:induction false} SidesPartitionValues(ts: seq<Transaction>)
    ensures SumOf(ts, true) + SumOf(ts, false) == TotalValue(ts)
  {
    if ts != [] {
      SidesPartitionValues(ts[1..]);
      assert ts == [ts[0]] + ts[1..];
      SumConcat([ts[0]], ts[1..], true);
      SumConcat([ts[0]], ts[1..], false);
      assert [ts[0]][..0] == [];
    }
  }
}
