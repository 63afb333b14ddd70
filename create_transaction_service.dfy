/**
 * The transaction creator: refuses an outcome larger than the current
 * total, finds or creates the category by exact title, then saves one
 * transaction.
 */
module CreateTransactionService {
  import opened Wrappers
  import opened Models
  import opened Storage
  import opened TransactionsRepository

  /** The insufficient-funds failure, raised before anything is written. */
  datatype Error = InsufficientFunds

  /** A category of `cats + [c]` titled like `c`, when `cats` has no such title, is `c` itself. */
  lemma OnlyNewCarriesTitle(cats: seq<Category>, c: Category, x: Category)
    requires c.title !in TitlesOf(cats)
    requires x in cats + [c] && x.title == c.title
    ensures x == c
  {
  }

  /**
   * The category step of `execute`: reuse the first category titled
   * `category`, or save a new one when there is none.
   */
  method FindOrCreateCategory(store: Store, category: string) returns (c: Category)
    requires store.Valid()
    modifies store
    ensures store.Valid()
    ensures old(store.TitlesUnique()) ==> store.TitlesUnique()
    ensures c.title == category && c in store.categories
    ensures store.transactions == old(store.transactions)
    ensures FindByTitle(old(store.categories), category).Some? ==>
              c == FindByTitle(old(store.categories), category).value
              && store.categories == old(store.categories) && store.nextId == old(store.nextId)
    ensures FindByTitle(old(store.categories), category).None? ==>
              c == Category(old(store.nextId), category)
              && store.categories == old(store.categories) + [c] && store.nextId == old(store.nextId) + 1
  {
    var found := FindByTitle(store.categories, category);
    if found.None? {
      var saved := store.SaveCategories([category]);
      NumberedOne(category, old(store.nextId));
      c := saved[0];
    } else {
      c := found.value;
    }
  }

  /** `execute({ title, value, type, category })`. */
  method Execute(store: Store, title: string, value: int, kind: Kind, category: string)
    returns (r: Result<Transaction, Error>)
    requires store.Valid()
    modifies store
    ensures store.Valid()
    ensures old(store.TitlesUnique()) ==> store.TitlesUnique()
    // the balance guard, and nothing written when it fails
    ensures r.Failure? <==> kind == Outcome && value > BalanceOf(old(store.transactions)).total
    ensures kind == Income ==> r.Success?
    ensures r.Failure? ==> store.categories == old(store.categories)
                           && store.transactions == old(store.transactions)
                           && store.nextId == old(store.nextId)
    // exactly one transaction appended, carrying the request
    ensures r.Success? ==> store.transactions == old(store.transactions) + [r.value]
    ensures r.Success? ==> r.value.title == title && r.value.value == value
                           && r.value.kind == kind.Name()
                           && r.value.category.title == category
                           && r.value.category in store.categories
                           && r.value.categoryId == r.value.category.id
                           && r.value.id == store.nextId - 1
    // find-or-create of the category
    ensures r.Success? && FindByTitle(old(store.categories), category).Some? ==>
              store.categories == old(store.categories) && store.nextId == old(store.nextId) + 1
              && r.value.category == FindByTitle(old(store.categories), category).value
    ensures r.Success? && FindByTitle(old(store.categories), category).None? ==>
              r.value.category == Category(old(store.nextId), category)
              && store.categories == old(store.categories) + [r.value.category]
              && store.nextId == old(store.nextId) + 2
    // the effect on the balance
    ensures r.Success? ==>
              BalanceOf(store.transactions) == Added(BalanceOf(old(store.transactions)), kind == Income, value)
    ensures r.Success? && kind == Outcome ==> BalanceOf(store.transactions).total >= 0
  {
    var balance := GetBalance(store);
    var total := balance.total;

    if kind == Outcome && value > total {
      return Failure(InsufficientFunds);
    }

    var categoryNew := FindOrCreateCategory(store, category);

    var transaction := Draft(title, kind.Name(), value, categoryNew);
    ghost var id := store.nextId;
    var saved := store.SaveTransactions([transaction]);
    PersistedOne(transaction, id);
    r := Success(saved[0]);
    assert IsIncome(r.value.kind) <==> kind == Income;
    BalanceAppend(old(store.transactions), r.value);
  }

  /**
   * Two successive requests naming the same previously unseen category
   * create that category once and share it.
   */
  method ExecuteTwiceWithNewCategory(
    store: Store, category: string,
    title1: string, value1: int, kind1: Kind,
    title2: string, value2: int, kind2: Kind)
    returns (r1: Result<Transaction, Error>, r2: Result<Transaction, Error>)
    requires store.Valid()
    requires category !in TitlesOf(store.categories)
    modifies store
    ensures store.Valid()
    ensures r1.Success? || r2.Success? ==>
              store.categories == old(store.categories) + [Category(old(store.nextId), category)]
    ensures r1.Failure? && r2.Failure? ==> store.categories == old(store.categories)
    ensures r1.Success? && r2.Success? ==> r1.value.category == r2.value.category
  {
    ghost var c := Category(store.nextId, category);
    ghost var before := store.categories;
    r1 := Execute(store, title1, value1, kind1, category);
    ghost var afterFirst := store.categories;
    assert afterFirst == if r1.Success? then before + [c] else before;
    r2 := Execute(store, title2, value2, kind2, category);
    if r1.Success? && r2.Success? {
      OnlyNewCarriesTitle(before, c, r2.value.category);
    }
  }
}
