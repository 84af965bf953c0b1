/**
 * The two stored entities (Models/Transaction.cs, Models/MonthlyBudget.cs)
 * and the database tables that the controllers read and change.
 */
module Models {
  import opened Dates

  /** The category a transaction gets when nothing better is known. */
  const Uncategorized: string := "Uncategorized"

  /** A stored transaction; the database identity `Id` and the `User` navigation are not modelled. */
  datatype Transaction = Transaction(userId: int, date: Date, description: string, category: string, amount: real)

  /** A spending limit for one user and one calendar month. */
  datatype MonthlyBudget = MonthlyBudget(userId: int, year: int, month: int, limitAmount: real)

  /** The application database: the `Transactions` and `MonthlyBudgets` tables, in insertion order. */
  class Database {
    var transactions: seq<Transaction>
    var budgets: seq<MonthlyBudget>

    constructor (transactions: seq<Transaction>, budgets: seq<MonthlyBudget>)
      ensures this.transactions == transactions && this.budgets == budgets
    {
      this.transactions := transactions;
      this.budgets := budgets;
    }
  }
}
