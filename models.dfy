/**
 * The records of the ledger: categories, transactions and the derived
 * balance. Timestamps assigned by the storage layer are not modelled.
 */
module Models {

  /** A category: a system-generated id and a human-readable title. */
  datatype Category = Category(id: nat, title: string)

  /**
   * A persisted transaction. `categoryId` is the foreign-key column and
   * `category` the resolved record it points to. `kind` is the stored `type`
   * column; the importer stores any non-empty cell there, so it is a string.
   */
  datatype Transaction = Transaction(
    id: nat,
    categoryId: nat,
    category: Category,
    title: string,
    kind: string,
    value: int)

  /** A transaction built by `create` and not yet saved: it has no id yet. */
  datatype Draft = Draft(title: string, kind: string, value: int, category: Category)

  /** The type of a single-creation request: the union `'income' | 'outcome'`. */
  datatype Kind = Income | Outcome {
    function Name(): (s: string)
      ensures s == "income" <==> this == Income
      ensures s == "income" || s == "outcome"
    {
      match this
      case Income => "income"
      case Outcome => "outcome"
    }
  }

  /** The aggregate of all transactions, computed on request. */
  datatype Balance = Balance(income: int, outcome: int, total: int)

  /** The balance classifies a transaction as income exactly when its type is the string "income". */
  predicate IsIncome(kind: string) {
    kind == "income"
  }
}
