/**
 * Monthly budgets (Controllers/BudgetController.cs): the summary of one
 * user's month (budget, spent, remaining, status) and SetBudget's
 * validation and upsert of the current month's limit.
 */
module Budgets {
  import opened Wrappers
  import opened Dates
  import opened Models
  import opened Transactions

  // ----------------------------------------------------------------- lookup

  /** The key a budget is looked up by. */
  predicate IsFor(b: MonthlyBudget, userId: int, year: int, month: int) {
    b.userId == userId && b.year == year && b.month == month
  }

  /** FirstOrDefault on (user, year, month): the position of the first matching budget. */
  function FindBudget(budgets: seq<MonthlyBudget>, userId: int, year: int, month: int): (r: Option<nat>)
    ensures r.None? <==> forall i :: 0 <= i < |budgets| ==> !IsFor(budgets[i], userId, year, month)
    ensures r.Some? ==> r.value < |budgets| && IsFor(budgets[r.value], userId, year, month)
    ensures r.Some? ==> forall i :: 0 <= i < r.value ==> !IsFor(budgets[i], userId, year, month)
  {
    if budgets == [] then None
    else if IsFor(budgets[0], userId, year, month) then Some(0)
    else
      match FindBudget(budgets[1..], userId, year, month)
      case None => None
      case Some(k) => Some(k + 1)
  }

  /** The invariant the data is meant to keep: at most one budget per user and month. */
  predicate UniqueBudgets(budgets: seq<MonthlyBudget>) {
    forall i, j :: 0 <= i < j < |budgets|
      ==> !IsFor(budgets[j], budgets[i].userId, budgets[i].year, budgets[i].month)
  }

  /** Under the invariant, the budget found is the only one for its key, wherever it is stored. */
  lemma UniqueBudgetIsFound(budgets: seq<MonthlyBudget>, i: nat)
    requires UniqueBudgets(budgets) && i < |budgets|
    ensures var b := budgets[i]; FindBudget(budgets, b.userId, b.year, b.month) == Some(i)
  {
    var b := budgets[i];
    assert FindBudget(budgets, b.userId, b.year, b.month).Some?;
  }

  // ---------------------------------------------------------------- summary

  /** BudgetSummaryResponse. */
  datatype BudgetSummary = BudgetSummary(budget: real, spent: real, remaining: real, status: string)

  /** The month of `reference` as the half-open window [first of month, first of next month). */
  predicate InWindow(d: Date, reference: Date)
    requires 1 <= reference.month <= 12
  {
    !Before(d, StartOfMonth(reference)) && Before(d, StartOfNextMonth(reference))
  }

  /** What counts as spending: the user's negative amounts dated inside the window. */
  predicate CountsAsSpending(t: Transaction, userId: int, reference: Date)
    requires 1 <= reference.month <= 12
  {
    t.userId == userId && t.amount < 0.0 && InWindow(t.date, reference)
  }

  /** The sum of the amounts that count as spending. */
  function SpentRaw(ts: seq<Transaction>, userId: int, reference: Date): (sum: real)
    requires 1 <= reference.month <= 12
    ensures sum <= 0.0
  {
    if ts == [] then 0.0
    else (if CountsAsSpending(ts[0], userId, reference) then ts[0].amount else 0.0) + SpentRaw(ts[1..], userId, reference)
  }

  /** Math.Abs on decimal. */
  function Abs(x: real): (r: real)
    ensures r >= 0.0 && (r == x || r == -x)
  {
    if x < 0.0 then -x else x
  }

  /**
   * BuildBudgetSummaryAsync: the month's limit (0 when none is set), the
   * absolute value of the month's spending, what is left, and "over" or "ok".
   */
  function BuildBudgetSummary(budgets: seq<MonthlyBudget>, ts: seq<Transaction>, userId: int, reference: Date): (s: BudgetSummary)
    requires Valid(reference)
    ensures s.budget == match FindBudget(budgets, userId, reference.year, reference.month)
                        case None => 0.0
                        case Some(k) => budgets[k].limitAmount
    ensures s.spent >= 0.0 && s.spent == -SpentRaw(ts, userId, reference)
    ensures s.remaining == s.budget - s.spent
    ensures s.status == (if s.remaining < 0.0 then "over" else "ok")
    ensures s.status == "over" <==> s.spent > s.budget
  {
    var budget := match FindBudget(budgets, userId, reference.year, reference.month)
                  case None => 0.0
                  case Some(k) => budgets[k].limitAmount;
    var spent := Abs(SpentRaw(ts, userId, reference));
    var remaining := budget - spent;
    BudgetSummary(budget, spent, remaining, if remaining < 0.0 then "over" else "ok")
  }

  /** The window is exactly the calendar month of `reference`. */
  lemma WindowIsMonth(d: Date, reference: Date)
    requires Valid(d) && Valid(reference)
    ensures InWindow(d, reference) <==> d.year == reference.year && d.month == reference.month
  {
    MonthWindow(d, reference);
  }

  /** Spending adds up over a concatenation of tables. */
  lemma {:induction false} SpentRawAppend(a: seq<Transaction>, b: seq<Transaction>, userId: int, reference: Date)
    requires 1 <= reference.month <= 12
    ensures SpentRaw(a + b, userId, reference) == SpentRaw(a, userId, reference) + SpentRaw(b, userId, reference)
  {
    if a == [] {
      assert a + b == b;
    } else {
      assert (a + b)[0] == a[0] && (a + b)[1..] == a[1..] + b;
      SpentRawAppend(a[1..], b, userId, reference);
    }
  }

  /**
   * A row adds to spending exactly its amount when it counts, and nothing
   * otherwise: positive and zero amounts, other users' rows and rows outside
   * the month have no effect.
   */
  lemma SpentRawAddRow(ts: seq<Transaction>, t: Transaction, userId: int, reference: Date)
    requires 1 <= reference.month <= 12
    ensures SpentRaw(ts + [t], userId, reference)
            == SpentRaw(ts, userId, reference) + (if CountsAsSpending(t, userId, reference) then t.amount else 0.0)
  {
    SpentRawAppend(ts, [t], userId, reference);
    assert [t][1..] == [];
  }

  /** The summary only looks at the user's negative amounts inside the month. */
  lemma SummaryIgnoresRow(budgets: seq<MonthlyBudget>, ts: seq<Transaction>, t: Transaction, userId: int, reference: Date)
    requires Valid(reference)
    requires t.userId != userId || t.amount >= 0.0 || !InWindow(t.date, reference)
    ensures BuildBudgetSummary(budgets, ts + [t], userId, reference) == BuildBudgetSummary(budgets, ts, userId, reference)
  {
    SpentRawAddRow(ts, t, userId, reference);
  }

  /** GetCurrentBudget: the first budget of the caller for the current month, or none. */
  function GetCurrentBudget(budgets: seq<MonthlyBudget>, userId: int, now: Date): (r: Option<MonthlyBudget>)
    ensures r.None? <==> forall i :: 0 <= i < |budgets| ==> !IsFor(budgets[i], userId, now.year, now.month)
    ensures r.Some? ==> r.value in budgets && IsFor(r.value, userId, now.year, now.month)
  {
    match FindBudget(budgets, userId, now.year, now.month)
    case Some(k) => Some(budgets[k])
    case None => None
  }

  // ------------------------------------------------------------------- set

  const NegativeBudget: ApiError := BadRequest("Budget must be non-negative.")

  /**
   * The table after SetBudget's write: the first budget for (user, year,
   * month) gets the new limit, or a new budget for that key is appended.
   * Either way, looking the key up afterwards finds the new limit.
   */
  function Upsert(budgets: seq<MonthlyBudget>, userId: int, year: int, month: int, limit: real): (after: seq<MonthlyBudget>)
    ensures |after| == |budgets| + (if FindBudget(budgets, userId, year, month).None? then 1 else 0)
    ensures FindBudget(after, userId, year, month).Some?
    ensures after[FindBudget(after, userId, year, month).value] == MonthlyBudget(userId, year, month, limit)
  {
    match FindBudget(budgets, userId, year, month)
    case Some(k) =>
      var after := budgets[k := budgets[k].(limitAmount := limit)];
      FindSame(budgets, after, userId, year, month, k);
      after
    case None =>
      var after := budgets + [MonthlyBudget(userId, year, month, limit)];
      assert IsFor(after[|budgets|], userId, year, month);
      assert forall i :: 0 <= i < |budgets| ==> after[i] == budgets[i];
      after
  }

  /**
   * Only the limit of the matching budget changes, or exactly one budget is
   * added at the end; every other budget keeps its place and value.
   */
  lemma UpsertChangesOnlyTheKey(budgets: seq<MonthlyBudget>, userId: int, year: int, month: int, limit: real)
    ensures var after := Upsert(budgets, userId, year, month, limit);
            match FindBudget(budgets, userId, year, month)
            case Some(k) =>
              && |after| == |budgets|
              && after[k] == MonthlyBudget(userId, year, month, limit)
              && forall i :: 0 <= i < |budgets| && i != k ==> after[i] == budgets[i]
            case None =>
              after == budgets + [MonthlyBudget(userId, year, month, limit)]
  {
  }

  /** Two tables that agree on which positions match the key, with the first match at `k`, find `k`. */
  lemma FindSame(a: seq<MonthlyBudget>, b: seq<MonthlyBudget>, userId: int, year: int, month: int, k: nat)
    requires |a| == |b| && FindBudget(a, userId, year, month) == Some(k)
    requires forall i :: 0 <= i < |a| ==> (IsFor(a[i], userId, year, month) <==> IsFor(b[i], userId, year, month))
    ensures FindBudget(b, userId, year, month) == Some(k)
  {
    assert IsFor(b[k], userId, year, month);
  }

  /** The write keeps at most one budget per user and month. */
  lemma UpsertKeepsUnique(budgets: seq<MonthlyBudget>, userId: int, year: int, month: int, limit: real)
    requires UniqueBudgets(budgets)
    ensures UniqueBudgets(Upsert(budgets, userId, year, month, limit))
  {
    var after := Upsert(budgets, userId, year, month, limit);
    match FindBudget(budgets, userId, year, month)
    case Some(k) =>
      assert forall i :: 0 <= i < |budgets| ==>
        (after[i].userId == budgets[i].userId && after[i].year == budgets[i].year && after[i].month == budgets[i].month);
    case None =>
      var n := |budgets|;
      assert forall i :: 0 <= i < n ==> after[i] == budgets[i];
  }

  /** The checks of SetBudget, in order: a body, then a non-negative limit. */
  function ValidateBudget(request: Option<real>): (r: Result<real, ApiError>)
    ensures r == Failure(BodyRequired) <==> request.None?
    ensures r == Failure(NegativeBudget) <==> request.Some? && request.value < 0.0
    ensures r.Success? <==> request.Some? && request.value >= 0.0
    ensures r.Success? ==> r.value == request.value
  {
    match request
    case None => Failure(BodyRequired)
    case Some(limit) => if limit < 0.0 then Failure(NegativeBudget) else Success(limit)
  }

  /**
   * SetBudget: refuses a missing body or a negative limit and changes
   * nothing; otherwise overwrites the limit of the current month's budget or
   * adds one, and answers with the month's summary.
   */
  method SetBudget(db: Database, request: Option<real>, userId: int, now: Date)
    returns (r: Result<BudgetSummary, ApiError>)
    requires Valid(now)
    modifies db
    ensures db.transactions == old(db.transactions)
    ensures match ValidateBudget(request)
            case Failure(e) => r == Failure(e) && db.budgets == old(db.budgets)
            case Success(limit) =>
              && db.budgets == Upsert(old(db.budgets), userId, now.year, now.month, limit)
              && r == Success(BuildBudgetSummary(db.budgets, db.transactions, userId, now))
  {
    match ValidateBudget(request)
    case Failure(e) =>
      return Failure(e);
    case Success(limit) =>
      var existing := FindBudget(db.budgets, userId, now.year, now.month);
      if existing.Some? {
        var k := existing.value;
        db.budgets := db.budgets[k := db.budgets[k].(limitAmount := limit)];
      } else {
        db.budgets := db.budgets + [MonthlyBudget(userId, now.year, now.month, limit)];
      }
      return Success(BuildBudgetSummary(db.budgets, db.transactions, userId, now));
  }

  /** The summary SetBudget answers with shows the limit just set. */
  lemma SetBudgetSummaryShowsLimit(budgets: seq<MonthlyBudget>, ts: seq<Transaction>, userId: int, now: Date, limit: real)
    requires Valid(now)
    ensures BuildBudgetSummary(Upsert(budgets, userId, now.year, now.month, limit), ts, userId, now).budget == limit
  {
  }
}
