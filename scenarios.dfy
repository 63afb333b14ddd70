/**
 * End-to-end behaviour on a fresh in-memory store, derived from the
 * operations' contracts alone.
 */
module Scenarios {
  import opened Wrappers
  import opened Models
  import opened Storage
  import opened TransactionsRepository
  import Create = CreateTransactionService
  import Import = ImportTransactionsService

  /**
   * One request through the creator on a ledger whose balance is `before`,
   * followed by a balance query: what a client observes.
   */
  method CreateThenBalance(store: Store, before: Balance, title: string, value: int, kind: Kind, category: string)
    returns (r: Result<Transaction, Create.Error>, b: Balance)
    requires store.Valid() && BalanceOf(store.transactions) == before
    modifies store
    ensures store.Valid() && BalanceOf(store.transactions) == b
    ensures r.Failure? <==> kind == Outcome && value > before.total
    ensures b == if r.Success? then Added(before, kind == Income, value) else before
  {
    r := Create.Execute(store, title, value, kind, category);
    b := GetBalance(store);
  }

  /** Salary 5000 in on an empty ledger. */
  method Salary() returns (store: Store, b0: Balance, b1: Balance)
    ensures fresh(store) && store.Valid() && BalanceOf(store.transactions) == b1
    ensures b0 == Balance(0, 0, 0)
    ensures b1 == Balance(5000, 0, 5000)
  {
    store := new Store();
    b0 := GetBalance(store);
    var salary;
    salary, b1 := CreateThenBalance(store, b0, "Salary", 5000, Income, "Work");
  }

  /** Salary 5000 in, then rent 2000 out, on an empty ledger. */
  method SalaryThenRent() returns (store: Store, b0: Balance, b1: Balance, b2: Balance)
    ensures fresh(store) && store.Valid() && BalanceOf(store.transactions) == b2
    ensures b0 == Balance(0, 0, 0)
    ensures b1 == Balance(5000, 0, 5000)
    ensures b2 == Balance(5000, 2000, 3000)
  {
    store, b0, b1 := Salary();
    var rent;
    rent, b2 := CreateThenBalance(store, b1, "Rent", 2000, Outcome, "Home");
  }

  /**
   * Salary 5000 in, rent 2000 out, then a car for 4000 out is refused and
   * the balance stays where it was.
   */
  method CreateScenario() returns (b0: Balance, b1: Balance, b2: Balance, car: Result<Transaction, Create.Error>, b3: Balance)
    ensures b0 == Balance(0, 0, 0)
    ensures b1 == Balance(5000, 0, 5000)
    ensures b2 == Balance(5000, 2000, 3000)
    ensures car.Failure?
    ensures b3 == Balance(5000, 2000, 3000)
  {
    var store;
    store, b0, b1, b2 := SalaryThenRent();
    car, b3 := CreateThenBalance(store, b2, "Car", 4000, Outcome, "Transport");
  }

  /** Against a store holding "Salary", only "Groceries" is missing, once. */
  lemma ScenarioMissing()
    ensures Import.MissingTitles([Category(0, "Salary")], ["Groceries", "Salary", "Groceries"]) == ["Groceries"]
  {
    var titles := ["Groceries", "Salary", "Groceries"];
    var existing := Import.MatchingCategories([Category(0, "Salary")], titles);
    assert existing == [Category(0, "Salary")];
    assert TitlesOf(existing) == ["Salary"];
    assert Collections.Without(titles, ["Salary"]) == ["Groceries", "Groceries"] by {
      assert titles[..2][..1][..0] == [];
    }
    assert Collections.Distinct(["Groceries", "Groceries"]) == ["Groceries"] by {
      assert ["Groceries", "Groceries"][..1][..0] == [];
    }
  }

  /**
   * An import followed by a balance query: every kept row's value lands on
   * its side of the balance, with no check against the total, so an
   * imported outcome may drive the total below zero.
   */
  method ImportThenBalance(store: Store, rows: seq<seq<string>>, toValue: string -> int)
    returns (created: seq<Transaction>, b: Balance)
    requires store.Valid()
    modifies store
    ensures store.Valid() && BalanceOf(store.transactions) == b
    ensures |created| == |Import.PendingOf(rows)|
    ensures b.income == SumOf(old(store.transactions), true) + SumOf(created, true)
    ensures b.outcome == SumOf(old(store.transactions), false) + SumOf(created, false)
    ensures b.total == b.income - b.outcome
  {
    ghost var before := store.transactions;
    created := Import.Execute(store, rows, toValue);
    SumConcat(before, created, true);
    SumConcat(before, created, false);
    b := GetBalance(store);
  }
}
