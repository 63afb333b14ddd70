/**
 * The bulk importer over already-decoded CSV rows (header removed): trim
 * every cell, drop rows whose title, type or value is empty, create the
 * missing categories in one batch, resolve every row's category by title
 * and save all transactions in one batch. No balance check is applied.
 */
module ImportTransactionsService {
  import opened Wrappers
  import opened Models
  import opened Storage
  import opened Collections
  import opened Text

  /** A kept row, after trimming: the `CSVTransaction` record. The value is still text. */
  datatype CsvTransaction = CsvTransaction(title: string, kind: string, value: string, category: string)

  /** The cell at column `i`; a missing cell reads as the empty string. */
  function Cell(row: seq<string>, i: nat): string {
    if i < |row| then row[i] else ""
  }

  /** `line.map(cell => cell.trim())`. */
  function TrimCells(row: seq<string>): seq<string> {
    if row == [] then [] else [Trim(row[0])] + TrimCells(row[1..])
  }

  /** Trimming the cells keeps their number and trims each one in place. */
  lemma {:induction false} TrimCellsSpec(row: seq<string>)
    ensures |TrimCells(row)| == |row|
    ensures forall i :: 0 <= i < |row| ==> TrimCells(row)[i] == Trim(row[i])
  {
    if row != [] {
      TrimCellsSpec(row[1..]);
    }
  }

  /**
   * What one decoded row contributes to the pending list: its trimmed cells
   * as a `CSVTransaction` when title, type and value are all non-empty
   * after trimming, nothing otherwise.
   */
  function Kept(row: seq<string>): (r: seq<CsvTransaction>)
    ensures |r| <= 1
  {
    var cells := TrimCells(row);
    var title, kind, value, category := Cell(cells, 0), Cell(cells, 1), Cell(cells, 2), Cell(cells, 3);
    if title == "" || kind == "" || value == "" then []
    else [CsvTransaction(title, kind, value, category)]
  }

  /** Trimming then selecting a column is selecting then trimming, since the empty string is blank. */
  lemma TrimCell(row: seq<string>, i: nat)
    ensures Cell(TrimCells(row), i) == Trim(Cell(row, i))
    ensures Cell(TrimCells(row), i) == "" <==> Blank(Cell(row, i))
  {
    TrimCellsSpec(row);
    TrimEmptyIffBlank(Cell(row, i));
  }

  /**
   * A row is dropped exactly when its title, type or value cell is missing
   * or blank, whatever its category cell holds.
   */
  lemma KeptSpec(row: seq<string>)
    ensures Kept(row) == [] <==> Blank(Cell(row, 0)) || Blank(Cell(row, 1)) || Blank(Cell(row, 2))
  {
    TrimCell(row, 0);
    TrimCell(row, 1);
    TrimCell(row, 2);
  }

  /**
   * A kept row's fields are its trimmed cells, so they are non-empty and
   * carry no white space at either end.
   */
  lemma KeptFields(row: seq<string>)
    requires Kept(row) != []
    ensures Kept(row) == [CsvTransaction(Trim(Cell(row, 0)), Trim(Cell(row, 1)), Trim(Cell(row, 2)), Trim(Cell(row, 3)))]
    ensures var p := Kept(row)[0];
            p.title != "" && p.kind != "" && p.value != ""
            && Trimmed(p.title) && Trimmed(p.kind) && Trimmed(p.value) && Trimmed(p.category)
  {
    TrimCell(row, 0);
    TrimCell(row, 1);
    TrimCell(row, 2);
    TrimCell(row, 3);
    TrimTrimmed(Cell(row, 0));
    TrimTrimmed(Cell(row, 1));
    TrimTrimmed(Cell(row, 2));
    TrimTrimmed(Cell(row, 3));
  }

  /** The kept rows of `rows`, in row order. */
  function PendingOf(rows: seq<seq<string>>): seq<CsvTransaction> {
    if rows == [] then [] else PendingOf(rows[..|rows| - 1]) + Kept(rows[|rows| - 1])
  }

  /**
   * The kept rows among the first `n` rows, in row order: what the row loop
   * has collected after `n` steps. It equals `PendingOf(rows[..n])`
   * (`PendingPrefixIsPendingOf`) and exists so that the loop invariant
   * indexes `rows` instead of slicing it, which keeps the loop cheap.
   */
  function PendingPrefix(rows: seq<seq<string>>, n: nat): seq<CsvTransaction>
    requires n <= |rows|
  {
    if n == 0 then [] else PendingPrefix(rows, n - 1) + Kept(rows[n - 1])
  }

  /**
   * One step of the row loop, on a loop state `t` holding the first `i`
   * rows' pending list and the trimmed cells of row `i`: the row is pushed
   * exactly when title, type and value are non-empty.
   */
  lemma PendingPrefixStep(rows: seq<seq<string>>, i: nat, t: seq<CsvTransaction>,
                          title: string, kind: string, value: string, category: string)
    requires i < |rows| && t == PendingPrefix(rows, i)
    requires var cells := TrimCells(rows[i]);
             title == Cell(cells, 0) && kind == Cell(cells, 1) && value == Cell(cells, 2) && category == Cell(cells, 3)
    ensures PendingPrefix(rows, i + 1)
            == if title != "" && kind != "" && value != "" then t + [CsvTransaction(title, kind, value, category)] else t
  {
  }

  /** Once every row is visited the loop holds the pending list of all rows. */
  lemma PendingPrefixAll(rows: seq<seq<string>>)
    ensures PendingPrefix(rows, |rows|) == PendingOf(rows)
  {
    PendingPrefixIsPendingOf(rows, |rows|);
    assert rows[..|rows|] == rows;
  }

  /** After `n` steps the loop holds the pending list of the first `n` rows. */
  lemma {:induction false} PendingPrefixIsPendingOf(rows: seq<seq<string>>, n: nat)
    requires n <= |rows|
    ensures PendingPrefix(rows, n) == PendingOf(rows[..n])
  {
    if n > 0 {
      PendingPrefixIsPendingOf(rows, n - 1);
      assert rows[..n][..n - 1] == rows[..n - 1];
    }
  }

  lemma PendingAppend(rows: seq<seq<string>>, row: seq<string>)
    ensures PendingOf(rows + [row]) == PendingOf(rows) + Kept(row)
  {
    assert (rows + [row])[..|rows|] == rows;
  }

  /** Rows are independent: the pending list of two blocks of rows is the concatenation of theirs. */
  lemma {:induction false} PendingConcat(a: seq<seq<string>>, b: seq<seq<string>>)
    ensures PendingOf(a + b) == PendingOf(a) + PendingOf(b)
  {
    if b == [] {
      assert a + b == a;
    } else {
      var init, last := b[..|b| - 1], b[|b| - 1];
      assert b == init + [last];
      assert a + b == (a + init) + [last];
      PendingConcat(a, init);
      PendingAppend(a + init, last);
      PendingAppend(init, last);
    }
  }

  /** A dropped row leaves the rows around it exactly as they would be without it. */
  lemma DroppedRowIgnored(before: seq<seq<string>>, row: seq<string>, after: seq<seq<string>>)
    requires Blank(Cell(row, 0)) || Blank(Cell(row, 1)) || Blank(Cell(row, 2))
    ensures PendingOf(before + [row] + after) == PendingOf(before + after)
  {
    KeptSpec(row);
    PendingConcat(before + [row], after);
    PendingAppend(before, row);
    PendingConcat(before, after);
  }

  /** With no dropped row, every row is kept: N well-formed rows give N pending transactions. */
  lemma {:induction false} AllRowsKept(rows: seq<seq<string>>)
    requires forall k :: 0 <= k < |rows| ==> Kept(rows[k]) != []
    ensures |PendingOf(rows)| == |rows|
  {
    if rows != [] {
      AllRowsKept(rows[..|rows| - 1]);
    }
  }

  /** The category title of every kept row, duplicates included. */
  function CategoriesOf(pending: seq<CsvTransaction>): (cs: seq<string>)
    ensures |cs| == |pending|
    ensures forall k :: 0 <= k < |pending| ==> cs[k] == pending[k].category
  {
    seq(|pending|, k requires 0 <= k < |pending| => pending[k].category)
  }

  /** Pushing a row pushes its category title. */
  lemma CategoriesOfPush(pending: seq<CsvTransaction>, p: CsvTransaction)
    ensures CategoriesOf(pending + [p]) == CategoriesOf(pending) + [p.category]
  {
    assert forall k :: 0 <= k < |pending| ==> (pending + [p])[k] == pending[k];
  }

  /** The row loop: the two pending lists, pushed in step. */
  method CollectRows(rows: seq<seq<string>>) returns (transactions: seq<CsvTransaction>, categories: seq<string>)
    ensures transactions == PendingOf(rows)
    ensures categories == CategoriesOf(transactions)
  {
    transactions, categories := [], [];
    var i := 0;
    while i < |rows|
      invariant i <= |rows|
      invariant transactions == PendingPrefix(rows, i)
      invariant categories == CategoriesOf(transactions)
    {
      var cells := TrimCells(rows[i]);
      var title, kind, value, category := Cell(cells, 0), Cell(cells, 1), Cell(cells, 2), Cell(cells, 3);
      PendingPrefixStep(rows, i, transactions, title, kind, value, category);
      if title != "" && kind != "" && value != "" {
        CategoriesOfPush(transactions, CsvTransaction(title, kind, value, category));
        categories := categories + [category];
        transactions := transactions + [CsvTransaction(title, kind, value, category)];
      }
      i := i + 1;
    }
    PendingPrefixAll(rows);
  }

  /**
   * The `find({ where: { title: In(titles) } })` query: the stored
   * categories whose title is among `titles`, in storage order.
   */
  function MatchingCategories(stored: seq<Category>, titles: seq<string>): (r: seq<Category>)
    ensures forall c :: c in r <==> c in stored && c.title in titles
  {
    if stored == [] then []
    else (if stored[0].title in titles then [stored[0]] else []) + MatchingCategories(stored[1..], titles)
  }

  /**
   * `addCategoriesTitles`: the referenced titles that no stored category
   * has, each once, in the order of first reference.
   */
  function MissingTitles(stored: seq<Category>, titles: seq<string>): seq<string> {
    Distinct(Without(titles, TitlesOf(MatchingCategories(stored, titles))))
  }

  /** A title of a matching category is one of the stored titles and one of the requested. */
  lemma MatchingTitles(stored: seq<Category>, titles: seq<string>, t: string)
    ensures t in TitlesOf(MatchingCategories(stored, titles)) <==> t in titles && t in TitlesOf(stored)
  {
    var m := MatchingCategories(stored, titles);
    if t in TitlesOf(m) {
      var k :| 0 <= k < |m| && TitlesOf(m)[k] == t;
      var j :| 0 <= j < |stored| && stored[j] == m[k];
      assert TitlesOf(stored)[j] == t;
    }
    if t in titles && t in TitlesOf(stored) {
      var j :| 0 <= j < |stored| && TitlesOf(stored)[j] == t;
      assert stored[j] in m;
      var k :| 0 <= k < |m| && m[k] == stored[j];
      assert TitlesOf(m)[k] == t;
    }
  }

  /**
   * The missing titles are exactly the referenced titles absent from the
   * store, without duplicates, in the order of their first reference.
   */
  lemma MissingTitlesSpec(stored: seq<Category>, titles: seq<string>)
    ensures var missing := MissingTitles(stored, titles);
            NoDuplicates(missing)
            && (forall t :: t in missing <==> t in titles && t !in TitlesOf(stored))
            && (forall i, j :: 0 <= i < j < |missing| ==>
                  FirstIndex(titles, missing[i]) < FirstIndex(titles, missing[j]))
  {
    var existing := TitlesOf(MatchingCategories(stored, titles));
    var kept := Without(titles, existing);
    var missing := Distinct(kept);
    forall t ensures t in missing <==> t in titles && t !in TitlesOf(stored) {
      MatchingTitles(stored, titles, t);
    }
    forall i, j | 0 <= i < j < |missing|
      ensures FirstIndex(titles, missing[i]) < FirstIndex(titles, missing[j])
    {
      WithoutKeepsOrder(titles, existing, missing[i], missing[j]);
    }
  }

  /** The number of categories created is the number of distinct referenced titles absent from the store. */
  lemma MissingTitlesCount(stored: seq<Category>, titles: seq<string>)
    ensures |MissingTitles(stored, titles)| == |set t | t in titles && t !in TitlesOf(stored)|
  {
    var missing := MissingTitles(stored, titles);
    MissingTitlesSpec(stored, titles);
    DistinctCardinality(missing);
    assert (set t | t in missing) == (set t | t in titles && t !in TitlesOf(stored));
  }

  /**
   * `transactions.map(...)`: every kept row, in order, becomes a draft whose
   * category is the first pool entry with the row's category title.
   */
  function Resolve(pending: seq<CsvTransaction>, pool: seq<Category>, toValue: string -> int): (ds: seq<Draft>)
    requires forall k :: 0 <= k < |pending| ==> pending[k].category in TitlesOf(pool)
    ensures |ds| == |pending|
    ensures forall k :: 0 <= k < |ds| ==>
              ds[k].title == pending[k].title && ds[k].kind == pending[k].kind
              && ds[k].value == toValue(pending[k].value)
              && ds[k].category in pool && ds[k].category.title == pending[k].category
    ensures forall k :: 0 <= k < |ds| ==>
              exists i :: 0 <= i < |pool| && pool[i] == ds[k].category
                          && forall j :: 0 <= j < i ==> pool[j].title != pending[k].category
  {
    seq(|pending|, k requires 0 <= k < |pending| =>
      Draft(pending[k].title, pending[k].kind, toValue(pending[k].value),
            FindByTitle(pool, pending[k].category).value))
  }

  /** Every referenced title is in the pool of new and matching categories, so every lookup succeeds. */
  lemma PoolCoversTitles(stored: seq<Category>, titles: seq<string>, first: nat)
    ensures var pool := Numbered(MissingTitles(stored, titles), first) + MatchingCategories(stored, titles);
            forall t :: t in titles ==> t in TitlesOf(pool)
  {
    var missing := MissingTitles(stored, titles);
    var created, matching := Numbered(missing, first), MatchingCategories(stored, titles);
    TitlesOfNumbered(missing, first);
    TitlesOfConcat(created, matching);
    MissingTitlesSpec(stored, titles);
    forall t | t in titles ensures t in missing + TitlesOf(matching) {
      MatchingTitles(stored, titles, t);
    }
  }

  /**
   * The reconciliation step of `execute`: look up the referenced titles,
   * save the missing ones in one batch and return the pool of new and
   * matching categories, which covers every referenced title.
   */
  method CreateMissingCategories(store: Store, categories: seq<string>) returns (finalCategories: seq<Category>)
    requires store.Valid()
    modifies store
    ensures store.Valid()
    ensures old(store.TitlesUnique()) ==> store.TitlesUnique()
    ensures store.categories
            == old(store.categories) + Numbered(MissingTitles(old(store.categories), categories), old(store.nextId))
    ensures store.transactions == old(store.transactions)
    ensures store.nextId == old(store.nextId) + |MissingTitles(old(store.categories), categories)|
    ensures forall c :: c in finalCategories ==> c in store.categories
    ensures forall t :: t in categories ==> t in TitlesOf(finalCategories)
  {
    var existentCategories := MatchingCategories(store.categories, categories);
    var existentCategoriesTitles := TitlesOf(existentCategories);
    var addCategoriesTitles := Distinct(Without(categories, existentCategoriesTitles));
    MissingTitlesSpec(store.categories, categories);
    PoolCoversTitles(store.categories, categories, store.nextId);

    var newCategories := store.SaveCategories(addCategoriesTitles);

    finalCategories := newCategories + existentCategories;
  }

  /** `execute(filePath)`, with the file already decoded into `rows`. */
  method Execute(store: Store, rows: seq<seq<string>>, toValue: string -> int)
    returns (created: seq<Transaction>)
    requires store.Valid()
    modifies store
    ensures store.Valid()
    ensures old(store.TitlesUnique()) ==> store.TitlesUnique()
    ensures var missing := MissingTitles(old(store.categories), CategoriesOf(PendingOf(rows)));
            store.categories == old(store.categories) + Numbered(missing, old(store.nextId))
    ensures store.transactions == old(store.transactions) + created
    ensures store.nextId == old(store.nextId)
                            + |MissingTitles(old(store.categories), CategoriesOf(PendingOf(rows)))| + |created|
    ensures |created| == |PendingOf(rows)|
    ensures forall k :: 0 <= k < |created| ==>
              var row := PendingOf(rows)[k];
              created[k].title == row.title && created[k].kind == row.kind
              && created[k].value == toValue(row.value)
              && created[k].category.title == row.category
              && created[k].category in store.categories
  {
    var transactions, categories := CollectRows(rows);

    var finalCategories := CreateMissingCategories(store, categories);

    forall k | 0 <= k < |transactions| ensures transactions[k].category in TitlesOf(finalCategories) {
      assert transactions[k].category == categories[k];
    }
    var drafts := Resolve(transactions, finalCategories, toValue);

    created := store.SaveTransactions(drafts);
  }
}
