# Ledger core of a personal-finance backend

This project models the ledger core of a personal-finance backend in Dafny. The backend records `income` and `outcome` transactions, files each one under a category, reports a balance on request, and bulk-imports transactions from decoded CSV rows.

The storage gateway is a class `Storage.Store`. It holds three fields:

- `categories` and `transactions`, two in-memory tables;
- `nextId`, an id counter that stands for the generated UUIDs.

Saving appends records and gives each one the next id. `Store.Valid()` is the invariant every operation keeps:

- ids are fresh and distinct;
- every transaction points to a stored category through a matching `categoryId`.

The model covers three operations:

- **Balance** (`TransactionsRepository.GetBalance`): one loop over the stored transactions. A value goes to `income` when its type is the string `"income"` and to `outcome` otherwise, and `total = income - outcome`. The loop is proved equal to the fold `BalanceOf`. Lemmas about `BalanceOf` show that appending a transaction moves exactly one side, that order does not matter, and that the two sides partition the values.
- **Single creation** (`CreateTransactionService.Execute`):
  1. An `outcome` larger than the current total fails with `InsufficientFunds`, and nothing is written.
  2. Otherwise the first category with exactly the requested title is reused, or a new one is saved.
  3. Exactly one transaction is then appended.
- **Bulk import** (`ImportTransactionsService.Execute`), over rows that are already decoded and have the header removed:
  1. Every cell is trimmed (`Text.Trim`, the white-space set of ECMAScript's `String.prototype.trim`).
  2. Rows with an empty title, type or value are dropped.
  3. The remaining rows and their category titles are collected in step (`CollectRows`).
  4. The referenced titles that no stored category has are saved once each, in first-reference order (`MissingTitles`, built from `Collections.Without` and `Collections.Distinct`).
  5. Each row is resolved to the first category in the pool of new and matching categories with its title (`Resolve`).
  6. All transactions are saved in one batch.

  No balance check is applied.

The services take the store as a parameter. The source obtains the repositories through a global lookup instead.

`Transaction.type` is declared `'income' | 'outcome'` (src/models/Transaction.ts:28), but the code does not rely on that, and the model follows the code:

- The balance counts every transaction whose type is not `"income"` as outcome (src/repositories/TransactionsRepository.ts:21-25).
- The importer stores whatever non-empty text the type cell holds (src/services/ImportTransactionsService.ts:38-41). This is why `Transaction.kind` is a string, while a single-creation request carries the two-valued `Kind`.

## Model

| member | source | states |
|---|---|---|
| TransactionsRepository.GetBalance | src/repositories/TransactionsRepository.ts:13-33 | The loop's result is `BalanceOf` of the stored transactions. `income` is the sum over type "income" and `outcome` the sum over every other type. `total = income - outcome`, and an empty table gives (0, 0, 0). The method has no `modifies`, so the store is unchanged. |
| TransactionsRepository.BalanceAppend | src/repositories/TransactionsRepository.ts:20-28 | Appending a transaction of value v adds v to income and to total when its type is "income". Any other type adds v to outcome and takes v off total. |
| TransactionsRepository.SumAppend | src/repositories/TransactionsRepository.ts:20-26 | Appending one transaction adds its share to one side's sum. |
| TransactionsRepository.SumConcat | src/repositories/TransactionsRepository.ts:20-26 | Each side's sum distributes over concatenation of transaction lists. |
| TransactionsRepository.SumPermutation | src/repositories/TransactionsRepository.ts:20-26 | Each side's sum depends only on the multiset of transactions. |
| TransactionsRepository.RemoveLast | src/repositories/TransactionsRepository.ts:20-26 | Removing the last element of one list and the matching element of a permutation of it leaves two permutations of each other. |
| TransactionsRepository.SumRemoved | src/repositories/TransactionsRepository.ts:20-26 | Removing the element at i takes exactly its share off a side's sum. |
| TransactionsRepository.BalancePermutation | src/repositories/TransactionsRepository.ts:20-28 | A permuted list of transactions has the same balance. |
| TransactionsRepository.SidesPartitionValues | src/repositories/TransactionsRepository.ts:20-26 | income + outcome is the sum of all values, because each transaction lands on exactly one side. |
| Models.Kind.Name | src/services/CreateTransactionService.ts:11 | A request type's stored name is "income" exactly for `Income`, and is always "income" or "outcome". |
| Storage.TitlesOf | src/services/ImportTransactionsService.ts:52-54 | The titles of the categories, one per category, position by position. |
| Storage.IndexOfTitle | src/services/CreateTransactionService.ts:31-35 | The index is the first category with the title, or the length when there is none. |
| Storage.FindByTitle | src/services/CreateTransactionService.ts:31-35 | None exactly when no category has the title. Otherwise it returns a stored category with that title, and no earlier category has it. |
| Storage.FindUnique | src/services/CreateTransactionService.ts:31-35 | When titles are unique, the lookup returns the one category with that title. |
| Storage.TitlesOfNumbered | src/services/ImportTransactionsService.ts:64-66 | The categories created for a list of titles carry exactly those titles, in order. |
| Storage.TitlesOfConcat | src/services/ImportTransactionsService.ts:70 | The titles of two concatenated blocks of categories are the two title lists concatenated. |
| Storage.PersistedOne | src/services/CreateTransactionService.ts:45-51 | Saving one draft yields one transaction with the draft's fields and the given id. |
| Storage.NumberedOne | src/services/CreateTransactionService.ts:39-42 | Saving one title yields one category with that title and the given id. |
| Storage.NumberedCategoriesAppend | src/services/ImportTransactionsService.ts:64-68 | Categories numbered from the counter keep category ids fresh and distinct. |
| Storage.PersistedAppend | src/services/ImportTransactionsService.ts:84 | Transactions numbered from the counter keep transaction ids fresh and distinct. |
| Storage.UniqueTitlesAppend | src/services/ImportTransactionsService.ts:56-68 | Appending categories with distinct titles that are new to the store keeps titles unique. |
| Storage.Store.SaveCategories | src/services/ImportTransactionsService.ts:64-68 | The categories for the titles are appended with fresh ids, in order, and carry exactly those titles. Transactions are unchanged. With distinct new titles, titles stay unique. |
| Storage.Store.SaveTransactions | src/services/ImportTransactionsService.ts:72-84 | The drafts become transactions with fresh ids, appended in order. Categories are unchanged and the store stays valid. |
| CreateTransactionService.OnlyNewCarriesTitle | src/services/CreateTransactionService.ts:31-43 | After appending a category with a title the store lacked, any category with that title is the new one. |
| CreateTransactionService.FindOrCreateCategory | src/services/CreateTransactionService.ts:30-43 | When a category has the title, the first such category is reused and the store is unchanged. Otherwise exactly one category with that title is appended with the next id. Transactions are unchanged. |
| CreateTransactionService.Execute | src/services/CreateTransactionService.ts:16-54 | Fails exactly when the type is outcome and the value exceeds the total before the call; income never fails. On failure nothing changes. On success exactly one transaction is appended, carrying the title, value and type and a stored category with the requested title. The category step is as in `FindOrCreateCategory`. The counter advances by one per record written. The balance moves by `Added`, and after an outcome succeeds the total is still at least 0. |
| CreateTransactionService.ExecuteTwiceWithNewCategory | src/services/CreateTransactionService.ts:31-43 | Two requests naming the same unseen category title create it at most once. Two successful requests share that category. |
| Text.TrimStartSpec | src/services/ImportTransactionsService.ts:34-36 | Trimming the start removes a blank prefix and nothing else, and stops at a non-white-space character. |
| Text.TrimEndSpec | src/services/ImportTransactionsService.ts:34-36 | Trimming the end removes a blank suffix and nothing else, and stops at a non-white-space character. |
| Text.TrimTrimmed | src/services/ImportTransactionsService.ts:34-36 | A trimmed cell neither starts nor ends with white space. |
| Text.TrimIsSlice | src/services/ImportTransactionsService.ts:34-36 | A trimmed cell is the slice of the cell between two blank margins. |
| Text.BetweenMargins | src/services/ImportTransactionsService.ts:34-36 | A prefix of a suffix, both cut at blank margins, is a slice between blank margins. |
| Text.TrimEmptyIffBlank | src/services/ImportTransactionsService.ts:34-38 | A cell trims to "" exactly when it is blank. |
| Text.TrimOfTrimmed | src/services/ImportTransactionsService.ts:34-36 | A string with no white space at either end is its own trim. |
| Text.TrimIdempotent | src/services/ImportTransactionsService.ts:34-36 | Trimming twice is trimming once. |
| ImportTransactionsService.TrimCellsSpec | src/services/ImportTransactionsService.ts:34-36 | Trimming a row keeps its number of cells and trims each cell in place. |
| ImportTransactionsService.TrimCell | src/services/ImportTransactionsService.ts:34-38 | Trimming the row and then taking a column is taking the column and then trimming. That cell is empty exactly when the raw cell is blank or missing. |
| ImportTransactionsService.Kept | src/services/ImportTransactionsService.ts:34-41 | A row contributes at most one pending record. |
| ImportTransactionsService.KeptSpec | src/services/ImportTransactionsService.ts:38 | A row is dropped exactly when its title, type or value cell is blank or missing. The category cell plays no part. |
| ImportTransactionsService.KeptFields | src/services/ImportTransactionsService.ts:34-41 | A kept row's record holds the four trimmed cells. Title, type and value are non-empty, and all four are trimmed. |
| ImportTransactionsService.PendingPrefixStep | src/services/ImportTransactionsService.ts:33-42 | One loop step pushes the row's record exactly when title, type and value are non-empty, and otherwise leaves the list as it was. |
| ImportTransactionsService.PendingPrefixAll | src/services/ImportTransactionsService.ts:33-44 | After the last row the loop holds the pending list of all rows. |
| ImportTransactionsService.PendingPrefixIsPendingOf | src/services/ImportTransactionsService.ts:33-42 | After n steps the loop holds the pending list of the first n rows. |
| ImportTransactionsService.PendingAppend | src/services/ImportTransactionsService.ts:33-42 | One more row adds only its own kept record. |
| ImportTransactionsService.PendingConcat | src/services/ImportTransactionsService.ts:33-42 | Rows are independent: two blocks of rows give the concatenation of their pending lists. |
| ImportTransactionsService.DroppedRowIgnored | src/services/ImportTransactionsService.ts:38 | Inserting a dropped row anywhere leaves the pending list unchanged. |
| ImportTransactionsService.AllRowsKept | src/services/ImportTransactionsService.ts:38-41 | When no row is dropped, N rows give N pending records. |
| ImportTransactionsService.CategoriesOf | src/services/ImportTransactionsService.ts:40-41 | The category list has one entry per pending record, and entry k is record k's category. |
| ImportTransactionsService.CategoriesOfPush | src/services/ImportTransactionsService.ts:40-41 | Pushing a record pushes its category. |
| ImportTransactionsService.CollectRows | src/services/ImportTransactionsService.ts:30-44 | The row loop returns the pending list of all rows. The categories list matches it entry by entry, with equal length. |
| ImportTransactionsService.MatchingCategories | src/services/ImportTransactionsService.ts:46-50 | The query returns exactly the stored categories whose title is among the referenced titles. |
| ImportTransactionsService.MatchingTitles | src/services/ImportTransactionsService.ts:46-54 | A title is among the matching categories' titles exactly when it is referenced and stored. |
| ImportTransactionsService.MissingTitlesSpec | src/services/ImportTransactionsService.ts:52-62 | `addCategoriesTitles` has no duplicates and holds exactly the referenced titles that no stored category has, in first-reference order. |
| ImportTransactionsService.MissingTitlesCount | src/services/ImportTransactionsService.ts:56-68 | The number of categories created is the number of distinct referenced titles absent from the store. |
| ImportTransactionsService.Resolve | src/services/ImportTransactionsService.ts:72-82 | One draft per pending record, in order. Each draft carries the record's title, type and converted value, and the first pool category with the record's category title. |
| ImportTransactionsService.PoolCoversTitles | src/services/ImportTransactionsService.ts:70-80 | The pool of new and matching categories contains every referenced title, so every lookup succeeds. |
| ImportTransactionsService.CreateMissingCategories | src/services/ImportTransactionsService.ts:46-70 | Exactly the missing titles are saved, in first-reference order, with fresh ids, the counter advancing by their number, and titles stay unique. The returned pool is stored and covers every referenced title. Transactions are unchanged. |
| ImportTransactionsService.Execute | src/services/ImportTransactionsService.ts:17-88 | Exactly the missing categories are added. The returned transactions are appended. They match the kept rows one to one and in row order, with each row's title, type, converted value and a stored category with the row's title. The counter advances by the number of new categories plus the number of new transactions. No balance condition is required. |
| Collections.FirstIndex | src/services/ImportTransactionsService.ts:56-62 | The position of the first occurrence. |
| Collections.FirstIndexInPrefix | src/services/ImportTransactionsService.ts:56-62 | Appending leaves the first occurrence of an existing element where it was. |
| Collections.FirstIndexAfterPrefix | src/services/ImportTransactionsService.ts:56-62 | A new element first occurs where it is appended. |
| Collections.FirstIndicesKept | src/services/ImportTransactionsService.ts:56-62 | Appending leaves every earlier first occurrence in place. |
| Collections.Without | src/services/ImportTransactionsService.ts:58-60 | The filter holds exactly the elements not excluded and is no longer than its input. |
| Collections.WithoutKeepsOrder | src/services/ImportTransactionsService.ts:58-60 | The filter keeps the relative order of first occurrences. |
| Collections.Distinct | src/services/ImportTransactionsService.ts:56-62 | `Array.from(new Set(s))` has no duplicates, holds exactly the elements of s, and orders them by first occurrence. |
| Collections.DistinctCardinality | src/services/ImportTransactionsService.ts:56-62 | A list without duplicates is as long as its set of elements. |
| Scenarios.CreateThenBalance | src/services/CreateTransactionService.ts:23-53 | One request followed by a balance query: it fails exactly on an outcome above the total. Otherwise the balance moves by the request. |
| Scenarios.Salary | src/services/CreateTransactionService.ts:16-54 | On an empty ledger the balance is (0, 0, 0). After a 5000 income it is (5000, 0, 5000). |
| Scenarios.SalaryThenRent | src/services/CreateTransactionService.ts:16-54 | A 2000 outcome after it succeeds and gives (5000, 2000, 3000). |
| Scenarios.CreateScenario | src/services/CreateTransactionService.ts:25-28 | A 4000 outcome after it fails and the balance stays (5000, 2000, 3000). |
| Scenarios.ScenarioMissing | src/services/ImportTransactionsService.ts:46-62 | Against a store holding "Salary", the references "Groceries", "Salary", "Groceries" create only "Groceries", once. |
| Scenarios.ImportThenBalance | src/services/ImportTransactionsService.ts:72-84 | After an import each side of the balance is the old sum plus the imported sum. No condition on the balance is required, so imported outcomes may drive the total below zero. |

## Left out

- Reading the file and parsing the CSV stream are not modelled. This covers the read stream, `csv-parse` with `from_line: 2`, the `data`/`end` events and the promise barrier. The importer takes the decoded rows with the header removed.
- A missing cell (a short row) reads as the empty string. A row with extra cells ignores them.
- Deleting the file after an import (`fs.promises.unlink`) is I/O cleanup only.
- ImportTransactionsService.Execute: the text-to-number conversion of the value cell is a function parameter `toValue`. In the source that conversion happens in the database layer. The objects the source returns still hold the value as text; the model returns the converted value.
- TypeORM is not modelled: repositories, `create`/`save` semantics, decorators, UUID generation and the `created_at`/`updated_at` timestamps. Storage is two in-memory tables with an id counter.
- Storage.Store.SaveTransactions: requires that every draft's category is stored. The source relies on the foreign key; both services meet this requirement.
- ImportTransactionsService.MatchingCategories: `In([])` with no referenced titles is modelled as returning no categories. How the database treats an empty `IN` list is not modelled.
- The error text and HTTP status of the insufficient-funds error are not modelled. The failure is the `Error.InsufficientFunds` result.
- async/await and overlapping calls are not modelled: each call runs alone. Races between two imports or two creations are not modelled.
- The category save and the transaction save are not atomic in the source. Storage failures between them, and the partial states they leave, are not modelled.
- Transaction values are mathematical integers. The floating-point arithmetic of JavaScript numbers is not modelled.
- ImportTransactionsService.TrimCells is a recursive function rather than `Array.prototype.map`. Its lemma fixes the same per-cell result.
- The import scenario with three literal rows is not stated as a lemma. The same behaviour is given by `Execute` together with `ScenarioMissing` and `PoolCoversTitles`.
- Models.Kind: a creation request carries one of the two declared types (the `RequestDTO` of src/services/CreateTransactionService.ts:8-13). Any other type string at run time would pass the guard at line 25, be stored, and count as outcome; the model follows the declared type and does not cover that input.
