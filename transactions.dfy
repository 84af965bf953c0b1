/**
 * The transaction API (Controllers/TransactionController.cs): listing the
 * caller's transactions with the optional type and category filters, newest
 * first; creating one transaction with validation and normalisation; and the
 * balance as income plus expenses.
 */
module Transactions {
  import opened Wrappers
  import opened Text
  import opened Numbers
  import opened Dates
  import opened Models

  /** The HTTP refusals the controller returns, with their texts. */
  datatype ApiError = BadRequest(message: string) | Unauthorized(message: string)

  const InvalidUser: ApiError := Unauthorized("Invalid user context.")

  // ------------------------------------------------------------------- Get

  /** string.IsNullOrWhiteSpace on an optional query parameter. */
  predicate Absent(parameter: Option<string>) {
    parameter.None? || IsBlank(parameter.value)
  }

  /**
   * The type filter: "income" keeps positive amounts, "expense" negative ones
   * (both compared after ToLowerInvariant); blank or any other text keeps all.
   */
  predicate KeepsType(typ: Option<string>, t: Transaction)
    ensures !KeepsType(typ, t)
            <==> && !Absent(typ)
                 && (|| (ToLowerInvariant(typ.value) == "income" && t.amount <= 0.0)
                     || (ToLowerInvariant(typ.value) == "expense" && t.amount >= 0.0))
  {
    if Absent(typ) then true
    else if ToLowerInvariant(typ.value) == "income" then t.amount > 0.0
    else if ToLowerInvariant(typ.value) == "expense" then t.amount < 0.0
    else true
  }

  /**
   * The category filter: a non-blank category keeps the rows whose category
   * equals it after both are lower-cased.
   */
  predicate KeepsCategory(category: Option<string>, t: Transaction)
    ensures Absent(category) ==> KeepsCategory(category, t)
    ensures category.Some? && t.category == category.value ==> KeepsCategory(category, t)
    ensures KeepsCategory(category, t) && !Absent(category) ==> |t.category| == |category.value|
  {
    Absent(category) || ToLowerInvariant(t.category) == ToLowerInvariant(category.value)
  }

  /** The rows a Get returns: the caller's, passing both filters. */
  predicate Selected(userId: int, typ: Option<string>, category: Option<string>, t: Transaction) {
    t.userId == userId && KeepsType(typ, t) && KeepsCategory(category, t)
  }

  /** The query before ordering: the selected rows, each as often as it is stored. */
  function Matching(ts: seq<Transaction>, userId: int, typ: Option<string>, category: Option<string>): (r: seq<Transaction>)
    ensures forall x :: multiset(r)[x] == if Selected(userId, typ, category, x) then multiset(ts)[x] else 0
  {
    if ts == [] then []
    else
      var rest := Matching(ts[1..], userId, typ, category);
      assert ts == [ts[0]] + ts[1..];
      if Selected(userId, typ, category, ts[0]) then [ts[0]] + rest else rest
  }

  /** OrderByDescending(t => t.Date): no row is earlier than a row after it. */
  predicate NewestFirst(ts: seq<Transaction>) {
    forall i, j :: 0 <= i < j < |ts| ==> !Before(ts[i].date, ts[j].date)
  }

  lemma NewestFirstCons(x: Transaction, s: seq<Transaction>)
    ensures NewestFirst([x] + s) <==> NewestFirst(s) && forall y :: y in s ==> !Before(x.date, y.date)
  {
    var r := [x] + s;
    assert forall k :: 0 <= k < |s| ==> r[k + 1] == s[k];
    if NewestFirst(s) && forall y :: y in s ==> !Before(x.date, y.date) {
      forall i, j | 0 <= i < j < |r| ensures !Before(r[i].date, r[j].date) {
        if i > 0 {
          assert r[i] == s[i - 1] && r[j] == s[j - 1];
        } else {
          assert r[j] in s;
        }
      }
    }
    if NewestFirst(r) {
      forall y | y in s ensures !Before(x.date, y.date) {
        var k :| 0 <= k < |s| && s[k] == y;
        assert r[0] == x && r[k + 1] == y;
      }
    }
  }

  /** Places `t` before the first row that is not later than it. */
  function InsertNewestFirst(t: Transaction, s: seq<Transaction>): (r: seq<Transaction>)
    requires NewestFirst(s)
    ensures multiset(r) == multiset(s) + multiset{t}
    ensures NewestFirst(r)
  {
    if s == [] || !Before(t.date, s[0].date) then
      assert forall y :: y in s ==> !Before(t.date, y.date) by {
        forall y | y in s ensures !Before(t.date, y.date) {
          var k :| 0 <= k < |s| && s[k] == y;
          assert !Before(s[0].date, y.date);
          BeforeIsStrictTotalOrder(t.date, s[0].date, y.date);
        }
      }
      NewestFirstCons(t, s);
      [t] + s
    else
      assert s == [s[0]] + s[1..];
      NewestFirstCons(s[0], s[1..]);
      var rest := InsertNewestFirst(t, s[1..]);
      assert forall y :: y in rest ==> !Before(s[0].date, y.date) by {
        forall y | y in rest ensures !Before(s[0].date, y.date) {
          assert y in multiset(rest);
          if y != t {
            assert y in multiset(s[1..]);
          } else {
            BeforeIsStrictTotalOrder(s[0].date, t.date, s[0].date);
          }
        }
      }
      NewestFirstCons(s[0], rest);
      [s[0]] + rest
  }

  /** A sort by date, newest first: a permutation of the input. */
  function SortNewestFirst(ts: seq<Transaction>): (r: seq<Transaction>)
    ensures multiset(r) == multiset(ts)
    ensures NewestFirst(r)
  {
    if ts == [] then []
    else
      assert ts == [ts[0]] + ts[1..];
      InsertNewestFirst(ts[0], SortNewestFirst(ts[1..]))
  }

  /**
   * Get: the claim must be an integer, else Unauthorized; then the caller's
   * rows passing the filters, newest first.
   */
  function Get(ts: seq<Transaction>, claim: Option<string>, typ: Option<string>, category: Option<string>)
    : (r: Result<seq<Transaction>, ApiError>)
    ensures r.Failure? <==> ParseInt32(claim).None?
    ensures r.Failure? ==> r.error == InvalidUser
    ensures r.Success? ==>
              && NewestFirst(r.value)
              && forall x :: multiset(r.value)[x]
                   == if Selected(ParseInt32(claim).value, typ, category, x) then multiset(ts)[x] else 0
  {
    match ParseInt32(claim)
    case None => Failure(InvalidUser)
    case Some(userId) => Success(SortNewestFirst(Matching(ts, userId, typ, category)))
  }

  /** Only the caller's rows are listed. */
  lemma GetOnlyCallersRows(ts: seq<Transaction>, claim: Option<string>, typ: Option<string>, category: Option<string>, x: Transaction)
    requires Get(ts, claim, typ, category).Success? && x in Get(ts, claim, typ, category).value
    ensures x in ts && x.userId == ParseInt32(claim).value
  {
    assert x in multiset(Get(ts, claim, typ, category).value);
  }

  /** A zero amount is neither income nor an expense. */
  lemma ZeroPassesNeitherTypeFilter(t: Transaction, typ: string)
    requires t.amount == 0.0
    requires !IsBlank(typ) && ToLowerInvariant(typ) in {"income", "expense"}
    ensures !KeepsType(Some(typ), t)
  {
  }

  /** Lower-casing keeps blankness: only capitals change, and no capital is white space. */
  lemma ToLowerKeepsBlank(s: string)
    ensures IsBlank(ToLowerInvariant(s)) <==> IsBlank(s)
  {
    assert forall i :: 0 <= i < |s| ==> (IsWhiteSpace(ToLowerInvariant(s)[i]) <==> IsWhiteSpace(s[i]));
  }

  /** The type filter ignores the case of its parameter. */
  lemma TypeFilterIgnoresCase(a: string, b: string, t: Transaction)
    requires ToLowerInvariant(a) == ToLowerInvariant(b)
    ensures KeepsType(Some(a), t) == KeepsType(Some(b), t)
  {
    ToLowerKeepsBlank(a);
    ToLowerKeepsBlank(b);
  }

  /** The category filter ignores the case of its parameter and of the stored category. */
  lemma CategoryFilterIgnoresCase(a: string, b: string, t: Transaction, u: Transaction)
    requires ToLowerInvariant(a) == ToLowerInvariant(b)
    requires ToLowerInvariant(t.category) == ToLowerInvariant(u.category)
    ensures KeepsCategory(Some(a), t) == KeepsCategory(Some(b), u)
  {
    ToLowerKeepsBlank(a);
    ToLowerKeepsBlank(b);
  }

  // ---------------------------------------------------------------- Create

  /** CreateTransactionRequest; Date is default(DateTime) when the client sent none. */
  datatype CreateRequest = CreateRequest(date: Date, description: string, category: Option<string>, amount: real)

  const BodyRequired: ApiError := BadRequest("Request body required.")
  const DescriptionRequired: ApiError := BadRequest("Description is required.")
  const AmountNonZero: ApiError := BadRequest("Amount must be non-zero.")

  /**
   * The record Create stores for a request: the caller's id and the amount as
   * sent; the description trimmed, so empty only for a blank one; the
   * category trimmed, or "Uncategorized" when blank or missing; the date sent,
   * or `now` for the default date.
   */
  function NewTransaction(userId: int, request: CreateRequest, now: Date): (t: Transaction)
    ensures t.userId == userId && t.amount == request.amount
    ensures t.description == Trim(request.description)
    ensures Unpadded(t.description)
    ensures !IsBlank(request.description) ==> t.description != []
    ensures IsBlank(request.description) ==> t.description == []
    ensures t.category != [] && Unpadded(t.category)
    ensures Absent(request.category) ==> t.category == Uncategorized
    ensures !Absent(request.category) ==> t.category == Trim(request.category.value)
    ensures request.date != DefaultDate ==> t.date == request.date
    ensures request.date == DefaultDate ==> t.date == now
    ensures t.date == DefaultDate ==> now == DefaultDate
  {
    var category := if Absent(request.category) then Uncategorized else Trim(request.category.value);
    assert category != [] && Unpadded(category) by {
      if Absent(request.category) {
        UncategorizedUnpadded();
      } else {
        assert !IsBlank(request.category.value);
      }
    }
    Transaction(
      userId,
      if request.date == DefaultDate then now else request.date,
      Trim(request.description),
      category,
      request.amount)
  }

  lemma UncategorizedUnpadded()
    ensures Uncategorized != [] && Unpadded(Uncategorized)
  {
    assert Uncategorized[0] == 'U' && Uncategorized[|Uncategorized| - 1] == 'd';
  }

  /**
   * The checks of Create, in order: a body, an integer user claim, a
   * non-blank description, a non-zero amount.
   */
  function ValidateCreate(request: Option<CreateRequest>, claim: Option<string>, now: Date): (r: Result<Transaction, ApiError>)
    ensures r == Failure(BodyRequired) <==> request.None?
    ensures r == Failure(InvalidUser) <==> request.Some? && ParseInt32(claim).None?
    ensures r == Failure(DescriptionRequired)
            <==> request.Some? && ParseInt32(claim).Some? && IsBlank(request.value.description)
    ensures r == Failure(AmountNonZero)
            <==> request.Some? && ParseInt32(claim).Some? && !IsBlank(request.value.description) && request.value.amount == 0.0
    ensures r.Success? ==> r.value == NewTransaction(ParseInt32(claim).value, request.value, now)
  {
    if request.None? then Failure(BodyRequired)
    else
      match ParseInt32(claim)
      case None => Failure(InvalidUser)
      case Some(userId) =>
        if IsBlank(request.value.description) then Failure(DescriptionRequired)
        else if request.value.amount == 0.0 then Failure(AmountNonZero)
        else Success(NewTransaction(userId, request.value, now))
  }

  /**
   * A stored record is normalised: the caller's id, the amount as sent and
   * non-zero, a description and a category that are non-empty and have no
   * white space at either end, and a date other than the default unless
   * `now` is the default.
   */
  lemma CreatedIsNormalised(request: Option<CreateRequest>, claim: Option<string>, now: Date)
    requires ValidateCreate(request, claim, now).Success?
    ensures var t := ValidateCreate(request, claim, now).value;
            && t.userId == ParseInt32(claim).value
            && t.amount == request.value.amount && t.amount != 0.0
            && t.description != [] && Unpadded(t.description)
            && t.description == Trim(request.value.description)
            && t.category != [] && Unpadded(t.category)
            && (request.value.date == DefaultDate ==> t.date == now)
            && (request.value.date != DefaultDate ==> t.date == request.value.date)
            && (t.date == DefaultDate ==> now == DefaultDate)
  {
  }

  /** Sending a stored record back (same date, text and amount) stores the same record again. */
  lemma CreateIsIdempotent(request: CreateRequest, claim: Option<string>, now: Date)
    requires ValidateCreate(Some(request), claim, now).Success?
    ensures var t := ValidateCreate(Some(request), claim, now).value;
            ValidateCreate(Some(CreateRequest(t.date, t.description, Some(t.category), t.amount)), claim, now) == Success(t)
  {
    var t := ValidateCreate(Some(request), claim, now).value;
    RecreateNormalised(ParseInt32(claim).value, t, now);
  }

  /** A normalised record, sent back as a request, gives the same record. */
  lemma RecreateNormalised(userId: int, t: Transaction, now: Date)
    requires t.userId == userId
    requires t.description != [] && Unpadded(t.description)
    requires t.category != [] && Unpadded(t.category)
    requires t.date == DefaultDate ==> now == DefaultDate
    ensures NewTransaction(userId, CreateRequest(t.date, t.description, Some(t.category), t.amount), now) == t
  {
    TrimUnpadded(t.description);
    TrimUnpadded(t.category);
    var r := CreateRequest(t.date, t.description, Some(t.category), t.amount);
    assert !Absent(r.category);
    var n := NewTransaction(userId, r, now);
    assert n.category == t.category && n.description == t.description && n.date == t.date;
  }

  /** Create: validates, then appends exactly one record; a refusal stores nothing. */
  method Create(db: Database, request: Option<CreateRequest>, claim: Option<string>, now: Date)
    returns (r: Result<Transaction, ApiError>)
    modifies db
    ensures r == ValidateCreate(request, claim, now)
    ensures db.budgets == old(db.budgets)
    ensures db.transactions == if r.Success? then old(db.transactions) + [r.value] else old(db.transactions)
  {
    r := ValidateCreate(request, claim, now);
    if r.Success? {
      db.transactions := db.transactions + [r.value];
    }
  }

  // ------------------------------------------------------------- GetBalance

  /** The sum of the caller's positive amounts. */
  function Income(ts: seq<Transaction>, userId: int): (sum: real)
    ensures sum >= 0.0
  {
    if ts == [] then 0.0
    else (if ts[0].userId == userId && ts[0].amount > 0.0 then ts[0].amount else 0.0) + Income(ts[1..], userId)
  }

  /** The sum of the caller's negative amounts. */
  function Expenses(ts: seq<Transaction>, userId: int): (sum: real)
    ensures sum <= 0.0
  {
    if ts == [] then 0.0
    else (if ts[0].userId == userId && ts[0].amount < 0.0 then ts[0].amount else 0.0) + Expenses(ts[1..], userId)
  }

  /** Every amount of the caller, added up. */
  function Total(ts: seq<Transaction>, userId: int): real {
    if ts == [] then 0.0
    else (if ts[0].userId == userId then ts[0].amount else 0.0) + Total(ts[1..], userId)
  }

  /** GetBalance: income plus expenses, which is every amount of the caller added up. */
  function GetBalance(ts: seq<Transaction>, userId: int): (balance: real)
    ensures balance == Total(ts, userId)
  {
    BalanceIsTotal(ts, userId);
    Income(ts, userId) + Expenses(ts, userId)
  }

  /** Income and expenses together are the sum of all the caller's amounts. */
  lemma {:induction false} BalanceIsTotal(ts: seq<Transaction>, userId: int)
    ensures Income(ts, userId) + Expenses(ts, userId) == Total(ts, userId)
  {
    if ts != [] {
      BalanceIsTotal(ts[1..], userId);
    }
  }

  /** Other users' rows never change the balance. */
  lemma {:induction false} BalanceIgnoresOthers(ts: seq<Transaction>, t: Transaction, userId: int)
    requires t.userId != userId
    ensures GetBalance(ts + [t], userId) == GetBalance(ts, userId)
  {
    if ts == [] {
      assert [t][1..] == [];
    } else {
      assert (ts + [t])[1..] == ts[1..] + [t];
      BalanceIgnoresOthers(ts[1..], t, userId);
    }
  }

  /** Creating a transaction moves the caller's balance by exactly its amount. */
  lemma {:induction false} BalanceAfterCreate(ts: seq<Transaction>, t: Transaction)
    ensures GetBalance(ts + [t], t.userId) == GetBalance(ts, t.userId) + t.amount
  {
    if ts == [] {
      assert [t][1..] == [];
    } else {
      assert (ts + [t])[1..] == ts[1..] + [t];
      BalanceAfterCreate(ts[1..], t);
    }
  }
}
