/**
 * The storage gateway over two in-memory tables. `save` appends records and
 * assigns each a fresh id drawn from a counter, which stands for the
 * generated UUIDs.
 */
module Storage {
  import opened Wrappers
  import opened Models
  import opened Collections

  /** The titles of `cats`, in order (`categories.map(category => category.title)`). */
  function TitlesOf(cats: seq<Category>): (ts: seq<string>)
    ensures |ts| == |cats|
    ensures forall k :: 0 <= k < |cats| ==> ts[k] == cats[k].title
  {
    if cats == [] then [] else [cats[0].title] + TitlesOf(cats[1..])
  }

  /** The position of the first category titled `title`, or `|cats|` when there is none. */
  function IndexOfTitle(cats: seq<Category>, title: string): (i: nat)
    ensures i <= |cats|
    ensures i < |cats| ==> cats[i].title == title
    ensures forall j :: 0 <= j < i ==> cats[j].title != title
  {
    if cats == [] then 0
    else if cats[0].title == title then 0
    else 1 + IndexOfTitle(cats[1..], title)
  }

  /**
   * The first category whose title is exactly `title`: the lookup of
   * `findOne({ where: { title } })` and of `Array.prototype.find`.
   */
  function FindByTitle(cats: seq<Category>, title: string): (r: Option<Category>)
    ensures r.None? <==> title !in TitlesOf(cats)
    ensures r.Some? ==> r.value in cats && r.value.title == title
    ensures r.Some? ==> exists i :: 0 <= i < |cats| && cats[i] == r.value
                                    && forall j :: 0 <= j < i ==> cats[j].title != title
  {
    var i := IndexOfTitle(cats, title);
    if i < |cats| then Some(cats[i]) else None
  }

  /** With unique titles, the category found is the only one with that title. */
  lemma FindUnique(cats: seq<Category>, title: string, c: Category)
    requires forall i, j :: 0 <= i < j < |cats| ==> cats[i].title != cats[j].title
    requires c in cats && c.title == title
    ensures FindByTitle(cats, title) == Some(c)
  {
    var i := IndexOfTitle(cats, title);
    assert title in TitlesOf(cats) by {
      var k :| 0 <= k < |cats| && cats[k] == c;
      assert TitlesOf(cats)[k] == title;
    }
  }

  /** The categories `save` produces for `titles`, numbered from `first`. */
  function Numbered(titles: seq<string>, first: nat): seq<Category> {
    seq(|titles|, k requires 0 <= k < |titles| => Category(first + k, titles[k]))
  }

  /** The transactions `save` produces for `drafts`, numbered from `first`. */
  function Persisted(drafts: seq<Draft>, first: nat): seq<Transaction> {
    seq(|drafts|, k requires 0 <= k < |drafts| =>
      Transaction(first + k, drafts[k].category.id, drafts[k].category,
                  drafts[k].title, drafts[k].kind, drafts[k].value))
  }

  /** Saving keeps the titles: the categories produced for `titles` carry exactly those titles, in order. */
  lemma TitlesOfNumbered(titles: seq<string>, first: nat)
    ensures TitlesOf(Numbered(titles, first)) == titles
  {
    assert forall k :: 0 <= k < |titles| ==> TitlesOf(Numbered(titles, first))[k] == titles[k];
  }

  /** The titles of two blocks of categories are the titles of each, in order. */
  lemma {:induction false} TitlesOfConcat(a: seq<Category>, b: seq<Category>)
    ensures TitlesOf(a + b) == TitlesOf(a) + TitlesOf(b)
  {
    if a == [] {
      assert a + b == b;
    } else {
      assert (a + b)[1..] == a[1..] + b;
      TitlesOfConcat(a[1..], b);
    }
  }

  /** Saving one draft yields one transaction carrying the draft's fields and the given id. */
  lemma PersistedOne(d: Draft, id: nat)
    ensures Persisted([d], id) == [Transaction(id, d.category.id, d.category, d.title, d.kind, d.value)]
  {
    var p := Persisted([d], id);
    assert |p| == 1 && p[0] == Transaction(id, d.category.id, d.category, d.title, d.kind, d.value);
  }

  /** Saving one title yields one category with that title and the given id. */
  lemma NumberedOne(title: string, id: nat)
    ensures Numbered([title], id) == [Category(id, title)]
  {
    var n := Numbered([title], id);
    assert |n| == 1 && n[0] == Category(id, title);
  }

  /** Every category id is below `next`, and no two categories share an id. */
  ghost predicate CategoriesNumbered(cats: seq<Category>, next: nat) {
    (forall i :: 0 <= i < |cats| ==> cats[i].id < next)
    && (forall i, j :: 0 <= i < j < |cats| ==> cats[i].id != cats[j].id)
  }

  /** Every transaction id is below `next`, and no two transactions share an id. */
  ghost predicate TransactionsNumbered(ts: seq<Transaction>, next: nat) {
    (forall i :: 0 <= i < |ts| ==> ts[i].id < next)
    && (forall i, j :: 0 <= i < j < |ts| ==> ts[i].id != ts[j].id)
  }

  /** Every transaction points to a category of `cats` through a matching foreign key. */
  ghost predicate Linked(ts: seq<Transaction>, cats: seq<Category>) {
    forall i :: 0 <= i < |ts| ==> ts[i].category in cats && ts[i].categoryId == ts[i].category.id
  }

  /** No two categories share a title. */
  ghost predicate UniqueTitles(cats: seq<Category>) {
    forall i, j :: 0 <= i < j < |cats| ==> cats[i].title != cats[j].title
  }

  lemma NumberedCategoriesAppend(cats: seq<Category>, titles: seq<string>, next: nat)
    requires CategoriesNumbered(cats, next)
    ensures CategoriesNumbered(cats + Numbered(titles, next), next + |titles|)
  {
  }

  lemma PersistedAppend(ts: seq<Transaction>, drafts: seq<Draft>, next: nat)
    requires TransactionsNumbered(ts, next)
    ensures TransactionsNumbered(ts + Persisted(drafts, next), next + |drafts|)
  {
  }

  /** Distinct titles that are new to `cats` keep the titles unique. */
  lemma UniqueTitlesAppend(cats: seq<Category>, added: seq<Category>)
    requires UniqueTitles(cats) && NoDuplicates(TitlesOf(added))
    requires forall t :: t in TitlesOf(added) ==> t !in TitlesOf(cats)
    ensures UniqueTitles(cats + added)
  {
    var all, ta, tc := cats + added, TitlesOf(added), TitlesOf(cats);
    forall i, j | 0 <= i < j < |all| ensures all[i].title != all[j].title {
      if j >= |cats| {
        var tj := ta[j - |cats|];
        assert all[j].title == tj;
        if i < |cats| {
          assert tc[i] == all[i].title;
          assert tj in ta;
          assert tj !in tc;
        } else {
          assert all[i].title == ta[i - |cats|];
        }
      }
    }
  }

  class Store {
    var categories: seq<Category>
    var transactions: seq<Transaction>
    var nextId: nat

    /**
     * Ids are below the counter and distinct within each table, and every
     * transaction points to a stored category through a matching foreign key.
     */
    ghost predicate Valid()
      reads this
    {
      CategoriesNumbered(categories, nextId)
      && TransactionsNumbered(transactions, nextId)
      && Linked(transactions, categories)
    }

    /** At most one category per title (exact, case-sensitive match). */
    ghost predicate TitlesUnique()
      reads this
    {
      UniqueTitles(categories)
    }

    constructor ()
      ensures Valid() && TitlesUnique()
      ensures categories == [] && transactions == []
    {
      categories, transactions, nextId := [], [], 0;
    }

    /**
     * `save` of new categories: they are appended with fresh ids. Titles that
     * are distinct and new keep the titles unique.
     */
    method SaveCategories(titles: seq<string>) returns (saved: seq<Category>)
      requires Valid()
      modifies this
      ensures Valid()
      ensures saved == Numbered(titles, old(nextId))
      ensures TitlesOf(saved) == titles
      ensures categories == old(categories) + saved
      ensures transactions == old(transactions)
      ensures nextId == old(nextId) + |titles|
      ensures old(TitlesUnique()) && NoDuplicates(titles)
              && (forall t :: t in titles ==> t !in TitlesOf(old(categories)))
              ==> TitlesUnique()
    {
      saved := Numbered(titles, nextId);
      TitlesOfNumbered(titles, nextId);
      NumberedCategoriesAppend(categories, titles, nextId);
      if TitlesUnique() && NoDuplicates(titles) && (forall t :: t in titles ==> t !in TitlesOf(categories)) {
        UniqueTitlesAppend(categories, saved);
      }
      categories := categories + saved;
      nextId := nextId + |titles|;
    }

    /** `save` of new transactions: they are appended with fresh ids. */
    method SaveTransactions(drafts: seq<Draft>) returns (saved: seq<Transaction>)
      requires Valid()
      requires forall k :: 0 <= k < |drafts| ==> drafts[k].category in categories
      modifies this
      ensures Valid()
      ensures saved == Persisted(drafts, old(nextId))
      ensures transactions == old(transactions) + saved
      ensures categories == old(categories)
      ensures nextId == old(nextId) + |drafts|
    {
      saved := Persisted(drafts, nextId);
      PersistedAppend(transactions, drafts, nextId);
      transactions := transactions + saved;
      nextId := nextId + |drafts|;
    }
  }
}
