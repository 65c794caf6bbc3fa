/** The state-changing handlers of the web app: purchase sync, income, the administrative
    overrides, the active-period switch, the `remaining` figure and the default accounts. */
module App {
  import opened Common
  import opened Ledger

  /** One element of the JSON list posted to /sync_purchases; `None` is an absent key. */
  datatype PurchaseIn = PurchaseIn(accountId: Option<int>, category: Option<string>, amount: int,
                                   userName: Option<string>, description: Option<string>, timestamp: string)

  /** The category id a purchase is filed under: an absent or empty name is not looked up,
      and an unknown name resolves to NULL. */
  function ResolveCategory(cats: map<int, Category>, name: Option<string>): (r: Option<int>)
    ensures r.Some? ==> name.Some? && name.value != "" && r.value in cats && cats[r.value].name == name.value
    ensures r.None? ==> name.None? || name.value == "" || forall k :: k in cats ==> cats[k].name != name.value
  {
    if name.Some? && name.value != "" then FindCategory(cats, name.value) else None
  }

  /** The purchases row stored for one synced element. */
  function Recorded(cats: map<int, Category>, p: PurchaseIn): Purchase {
    Purchase(p.userName.GetOr("Unknown"), p.amount, p.accountId, ResolveCategory(cats, p.category),
             p.description.GetOr(""), p.timestamp)
  }

  /** The rows a batch stores, one per element, in order. */
  function Recordings(cats: map<int, Category>, batch: seq<PurchaseIn>): (r: seq<Purchase>)
    ensures |r| == |batch|
    ensures forall j :: 0 <= j < |r| ==> r[j].account == batch[j].accountId && r[j].amount == batch[j].amount
  {
    seq(|batch|, j requires 0 <= j < |batch| => Recorded(cats, batch[j]))
  }

  /** What the stored purchases `recs` withdrew from account `k`: the sum of the amounts
      of the rows whose account is `k`. A NULL or zero account id debits nothing. */
  function AccountDebit(recs: seq<Purchase>, k: int): int {
    if |recs| == 0 then 0
    else
      var p := recs[|recs| - 1];
      AccountDebit(recs[..|recs| - 1], k) + (if Truthy(p.account) && p.account.value == k then p.amount else 0)
  }

  /** What the stored purchases `recs` withdrew from category `k`. */
  function CategoryDebit(recs: seq<Purchase>, k: int): int {
    if |recs| == 0 then 0
    else
      var p := recs[|recs| - 1];
      CategoryDebit(recs[..|recs| - 1], k) + (if Truthy(p.category) && p.category.value == k then p.amount else 0)
  }

  /** Every account less what the stored purchases withdrew from it. */
  function DebitedAccounts(rows: map<int, Account>, recs: seq<Purchase>): map<int, Account> {
    map k | k in rows :: rows[k].(balance := rows[k].balance - AccountDebit(recs, k))
  }

  /** Every category less what the stored purchases withdrew from it. */
  function DebitedCategories(rows: map<int, Category>, recs: seq<Purchase>): map<int, Category> {
    map k | k in rows :: rows[k].(current := rows[k].current - CategoryDebit(recs, k))
  }

  /** Category lookup by name sees only names, so balance updates do not change it. */
  lemma {:induction false} ResolveCategorySameNames(a: map<int, Category>, b: map<int, Category>, name: Option<string>)
    requires a.Keys == b.Keys && forall k :: k in a ==> a[k].name == b[k].name
    ensures ResolveCategory(a, name) == ResolveCategory(b, name)
  {
    if name.Some? && name.value != "" {
      assert forall k :: k in CategoriesNamed(a, name.value) <==> k in CategoriesNamed(b, name.value);
      assert CategoriesNamed(a, name.value) == CategoriesNamed(b, name.value);
    }
  }

  /** The balance update one stored row causes: `UPDATE accounts SET balance = balance - amount
      WHERE id = account_id`, issued only when the row has an account id. */
  function DebitAccount(rows: map<int, Account>, p: Purchase): map<int, Account> {
    if Truthy(p.account) then AdjustBalance(rows, p.account.value, -p.amount) else rows
  }

  /** The category update one stored row causes, issued only when its category resolved. */
  function DebitCategory(rows: map<int, Category>, p: Purchase): map<int, Category> {
    if Truthy(p.category) then AdjustCurrent(rows, p.category.value, -p.amount) else rows
  }

  /** Debiting the accounts for one more stored row is one balance update. */
  lemma {:induction false} DebitedAccountsStep(rows: map<int, Account>, recs: seq<Purchase>, i: int)
    requires 0 <= i < |recs|
    ensures DebitedAccounts(rows, recs[..i + 1]) == DebitAccount(DebitedAccounts(rows, recs[..i]), recs[i])
  {
    assert recs[..i + 1][..i] == recs[..i];
  }

  /** Debiting keeps every account's id, name and type. */
  lemma {:induction false} DebitedAccountsNames(rows: map<int, Account>, recs: seq<Purchase>)
    ensures var r := DebitedAccounts(rows, recs);
            r.Keys == rows.Keys && forall k :: k in r ==> r[k].name == rows[k].name && r[k].accountType == rows[k].accountType
  {
  }

  /** Appending one stored row to the list adds its balance update. */
  lemma {:induction false} DebitedAccountsSnoc(rows: map<int, Account>, recs: seq<Purchase>, p: Purchase)
    ensures DebitedAccounts(rows, recs + [p]) == DebitAccount(DebitedAccounts(rows, recs), p)
  {
    assert (recs + [p])[..|recs|] == recs;
  }

  /** Debiting the categories changes only their current balances. */
  lemma {:induction false} DebitedCategoriesNames(rows: map<int, Category>, recs: seq<Purchase>)
    ensures var r := DebitedCategories(rows, recs);
            r.Keys == rows.Keys && forall k :: k in r ==> r[k].name == rows[k].name
  {
  }

  /** Debiting the categories for one more stored row is one balance update. */
  lemma {:induction false} DebitedCategoriesStep(rows: map<int, Category>, recs: seq<Purchase>, i: int)
    requires 0 <= i < |recs|
    ensures DebitedCategories(rows, recs[..i + 1]) == DebitCategory(DebitedCategories(rows, recs[..i]), recs[i])
  {
    assert recs[..i + 1][..i] == recs[..i];
  }

  /** Debiting balances keeps the ids and the names, so the tables stay valid. */
  lemma {:induction false} DebitedKeepsValid(accounts: Table<Account>, cats: Table<Category>, recs: seq<Purchase>)
    requires accounts.Valid() && cats.Valid() && AccountNamesUnique(accounts.rows)
    ensures var a := accounts.(rows := DebitedAccounts(accounts.rows, recs));
            a.Valid() && AccountNamesUnique(a.rows)
    ensures cats.(rows := DebitedCategories(cats.rows, recs)).Valid()
  {
  }

  /** One element of the batch: the row it stores resolves its category against the
      categories as debited so far, and storing it extends the three tables by one step. */
  lemma {:induction false} ApplyStep(accounts0: map<int, Account>, cats0: map<int, Category>, purchases0: Table<Purchase>,
                                     batch: seq<PurchaseIn>, recs: seq<Purchase>, i: int)
    requires purchases0.Valid() && recs == Recordings(cats0, batch) && 0 <= i < |batch|
    ensures recs[i] == Recorded(DebitedCategories(cats0, recs[..i]), batch[i])
    ensures DebitedAccounts(accounts0, recs[..i + 1]) == DebitAccount(DebitedAccounts(accounts0, recs[..i]), recs[i])
    ensures DebitedCategories(cats0, recs[..i + 1]) == DebitCategory(DebitedCategories(cats0, recs[..i]), recs[i])
    ensures purchases0.InsertAll(recs[..i + 1]) == purchases0.InsertAll(recs[..i]).Insert(recs[i])
  {
    DebitedCategoriesNames(cats0, recs[..i]);
    ResolveCategorySameNames(DebitedCategories(cats0, recs[..i]), cats0, batch[i].category);
    DebitedAccountsStep(accounts0, recs, i);
    DebitedCategoriesStep(cats0, recs, i);
    assert recs[..i + 1][..i] == recs[..i];
  }

  /** The loop of /sync_purchases on the tables as the open transaction sees them: for each
      element, resolve its category, store its row, debit its account and its category. */
  method ApplyBatch(accounts0: Table<Account>, cats0: Table<Category>, purchases0: Table<Purchase>, batch: seq<PurchaseIn>)
    returns (accounts: Table<Account>, cats: Table<Category>, purchases: Table<Purchase>)
    requires purchases0.Valid()
    ensures var recs := Recordings(cats0.rows, batch);
            accounts == accounts0.(rows := DebitedAccounts(accounts0.rows, recs)) &&
            cats == cats0.(rows := DebitedCategories(cats0.rows, recs)) &&
            purchases == purchases0.InsertAll(recs)
  {
    accounts, cats, purchases := accounts0, cats0, purchases0;
    ghost var recs := Recordings(cats0.rows, batch);
    var i := 0;
    while i < |batch|
      invariant 0 <= i <= |batch|
      invariant accounts == accounts0.(rows := DebitedAccounts(accounts0.rows, recs[..i]))
      invariant cats == cats0.(rows := DebitedCategories(cats0.rows, recs[..i]))
      invariant purchases == purchases0.InsertAll(recs[..i])
    {
      ApplyStep(accounts0.rows, cats0.rows, purchases0, batch, recs, i);
      var p := batch[i];
      var categoryId := ResolveCategory(cats.rows, p.category);
      var row := Purchase(p.userName.GetOr("Unknown"), p.amount, p.accountId, categoryId, p.description.GetOr(""), p.timestamp);
      purchases := purchases.Insert(row);
      accounts := accounts.(rows := DebitAccount(accounts.rows, row));
      cats := cats.(rows := DebitCategory(cats.rows, row));
      i := i + 1;
    }
    assert recs[..i] == recs;
  }


  /** The error the foreign key `purchases.account_id REFERENCES accounts (id)` raises. */
  const UnknownAccount: string := "insert or update on table \"purchases\" violates foreign key constraint \"purchases_account_id_fkey\""

  /** Every element that carries an account id names an existing account, as the foreign
      key demands of each stored row (a zero id is not NULL and is checked too). */
  predicate BatchAccountsExist(rows: map<int, Account>, batch: seq<PurchaseIn>) {
    forall j :: 0 <= j < |batch| && batch[j].accountId.Some? ==> batch[j].accountId.value in rows
  }

  /** Storing a batch whose account ids all exist keeps every purchase's account reference
      resolving, before and after the debits. */
  lemma {:induction false} SyncKeepsAccountRefs(accounts: map<int, Account>, cats: map<int, Category>,
                                                purchases: Table<Purchase>, batch: seq<PurchaseIn>)
    requires purchases.Valid() && AccountRefsValid(purchases.rows, accounts) && BatchAccountsExist(accounts, batch)
    ensures AccountRefsValid(purchases.InsertAll(Recordings(cats, batch)).rows,
                             DebitedAccounts(accounts, Recordings(cats, batch)))
  {
    var recs := Recordings(cats, batch);
    var r := purchases.InsertAll(recs);
    InsertAllRows(purchases, recs);
    forall k | k in r.rows && r.rows[k].account.Some?
      ensures r.rows[k].account.value in DebitedAccounts(accounts, recs)
    {
      if k !in purchases.rows {
        assert r.rows[k] == recs[k - purchases.nextId];
      }
    }
  }

  /** POST /sync_purchases: an empty list is refused, and so is a list naming an account
      that does not exist, whose INSERT the foreign key rejects before anything is
      committed. Otherwise every element is stored, each account is debited by the amounts
      of the stored rows that name it, each category by the amounts of the stored rows
      filed under it, and the reply counts the elements. A failure midway (a missing
      amount or timestamp) is not modelled. */
  method SyncPurchases(db: Store, batch: seq<PurchaseIn>) returns (r: Result<nat>)
    requires db.Valid()
    modifies db
    ensures db.Valid()
    ensures |batch| == 0 ==> r == Err("No purchases to sync") && unchanged(db)
    ensures |batch| > 0 && !BatchAccountsExist(old(db.accounts.rows), batch) ==> r == Err(UnknownAccount) && unchanged(db)
    ensures |batch| > 0 && BatchAccountsExist(old(db.accounts.rows), batch) ==>
              var recs := Recordings(old(db.categories.rows), batch);
              r == Ok(|batch|) &&
              db.purchases == old(db.purchases).InsertAll(recs) &&
              db.accounts == old(db.accounts).(rows := DebitedAccounts(old(db.accounts.rows), recs)) &&
              db.categories == old(db.categories).(rows := DebitedCategories(old(db.categories.rows), recs)) &&
              db.periods == old(db.periods)
    ensures AccountRefsValid(old(db.purchases.rows), old(db.accounts.rows)) ==> AccountRefsValid(db.purchases.rows, db.accounts.rows)
  {
    if |batch| == 0 {
      return Err("No purchases to sync");
    }
    if !BatchAccountsExist(db.accounts.rows, batch) {
      return Err(UnknownAccount);
    }
    var accounts, cats, purchases := ApplyBatch(db.accounts, db.categories, db.purchases, batch);
    DebitedKeepsValid(db.accounts, db.categories, Recordings(db.categories.rows, batch));
    if AccountRefsValid(db.purchases.rows, db.accounts.rows) {
      SyncKeepsAccountRefs(db.accounts.rows, db.categories.rows, db.purchases, batch);
    }
    db.accounts, db.categories, db.purchases := accounts, cats, purchases;
    return Ok(|batch|);
  }

  /** The debit of a concatenation of row lists is the sum of their debits. */
  lemma {:induction false} AccountDebitAppend(a: seq<Purchase>, b: seq<Purchase>, k: int)
    ensures AccountDebit(a + b, k) == AccountDebit(a, k) + AccountDebit(b, k)
    decreases |b|
  {
    if |b| == 0 {
      assert a + b == a;
    } else {
      assert (a + b)[..|a + b| - 1] == a + b[..|b| - 1];
      AccountDebitAppend(a, b[..|b| - 1], k);
    }
  }

  /** Syncing one purchase debits exactly its own account by exactly its amount, and no
      account at all when it has none. */
  lemma {:induction false} SyncOneAccount(cats: map<int, Category>, rows: map<int, Account>, p: PurchaseIn, k: int)
    requires k in rows
    ensures DebitedAccounts(rows, Recordings(cats, [p]))[k].balance ==
            rows[k].balance - (if Truthy(p.accountId) && p.accountId.value == k then p.amount else 0)
    ensures !Truthy(p.accountId) ==> DebitedAccounts(rows, Recordings(cats, [p])) == rows
  {
    var recs := Recordings(cats, [p]);
    assert recs[..0] == [];
    assert forall a :: AccountDebit(recs, a) == if Truthy(p.accountId) && p.accountId.value == a then p.amount else 0;
  }

  /** Elements that name no account leave every balance as it was. */
  lemma {:induction false} NoAccountNoDebit(recs: seq<Purchase>, k: int)
    requires forall j :: 0 <= j < |recs| ==> !Truthy(recs[j].account)
    ensures AccountDebit(recs, k) == 0
    decreases |recs|
  {
    if |recs| > 0 {
      NoAccountNoDebit(recs[..|recs| - 1], k);
    }
  }

  lemma {:induction false} NoCategoryNoDebit(recs: seq<Purchase>, k: int)
    requires forall j :: 0 <= j < |recs| ==> recs[j].category.None?
    ensures CategoryDebit(recs, k) == 0
    decreases |recs|
  {
    if |recs| > 0 {
      NoCategoryNoDebit(recs[..|recs| - 1], k);
    }
  }

  /** Elements whose category name is absent, empty or unknown are stored with a NULL
      category and debit no category. */
  lemma {:induction false} UnresolvedNotCharged(cats: map<int, Category>, batch: seq<PurchaseIn>, k: int)
    requires forall j :: 0 <= j < |batch| ==>
               batch[j].category.None? || batch[j].category.value == "" ||
               forall c :: c in cats ==> cats[c].name != batch[j].category.value
    ensures forall j :: 0 <= j < |batch| ==> Recordings(cats, batch)[j].category.None?
    ensures CategoryDebit(Recordings(cats, batch), k) == 0
  {
    var recs := Recordings(cats, batch);
    forall j | 0 <= j < |batch|
      ensures recs[j].category.None?
    {
      assert recs[j] == Recorded(cats, batch[j]);
    }
    NoCategoryNoDebit(recs, k);
  }

  /** The description of an income row. */
  function IncomeDescription(description: string, user: string): (d: string)
    ensures StartsWith(d, "Income: ")
  {
    "Income: " + description + " (received by " + user + ")"
  }

  /** POST /add_income: a missing or zero target, or an amount that is not positive, is
      refused; a target that is not an account is refused by the foreign key of the income
      row, and the balance update before it is rolled back. Otherwise the target is
      credited and the income is recorded as a purchase of minus the amount with no
      category. */
  method AddIncome(db: Store, username: Option<string>, amount: int, target: Option<int>,
                   description: Option<string>, incomeDate: string) returns (r: Result<()>)
    requires db.Valid()
    modifies db
    ensures db.Valid()
    ensures !Truthy(target) || amount <= 0 ==> r == Err("Invalid income data") && unchanged(db)
    ensures Truthy(target) && amount > 0 && target.value !in old(db.accounts.rows) ==> r == Err(UnknownAccount) && unchanged(db)
    ensures AccountRefsValid(old(db.purchases.rows), old(db.accounts.rows)) ==> AccountRefsValid(db.purchases.rows, db.accounts.rows)
    ensures Truthy(target) && amount > 0 && target.value in old(db.accounts.rows) ==>
              r == Ok(()) &&
              db.accounts == old(db.accounts).(rows := AdjustBalance(old(db.accounts.rows), target.value, amount)) &&
              db.purchases == old(db.purchases).Insert(
                Purchase(username.GetOr("Unknown"), -amount, target, None,
                         IncomeDescription(description.GetOr(""), username.GetOr("Unknown")), incomeDate)) &&
              db.categories == old(db.categories) && db.periods == old(db.periods)
  {
    if !Truthy(target) || amount <= 0 {
      return Err("Invalid income data");
    }
    if target.value !in db.accounts.rows {
      return Err(UnknownAccount);
    }
    var user := username.GetOr("Unknown");
    db.accounts := db.accounts.(rows := AdjustBalance(db.accounts.rows, target.value, amount));
    db.purchases := db.purchases.Insert(Purchase(user, -amount, target, None,
                                                 IncomeDescription(description.GetOr(""), user), incomeDate));
    return Ok(());
  }

  /** `UPDATE accounts SET balance = value WHERE id = id`. */
  function SetBalance(rows: map<int, Account>, id: int, value: int): (r: map<int, Account>)
    ensures r.Keys == rows.Keys
    ensures forall k :: k in r ==> r[k].name == rows[k].name && r[k].accountType == rows[k].accountType
    ensures forall k :: k in r ==> r[k].balance == if k == id then value else rows[k].balance
  {
    if id in rows then rows[id := rows[id].(balance := value)] else rows
  }

  /** `UPDATE budget_categories SET budgeted_amount = value WHERE id = id`. */
  function SetBudgeted(rows: map<int, Category>, id: int, value: int): (r: map<int, Category>)
    ensures r.Keys == rows.Keys
    ensures forall k :: k in r ==> r[k].name == rows[k].name && r[k].current == rows[k].current && r[k].period == rows[k].period
    ensures forall k :: k in r ==> r[k].budgeted == if k == id then value else rows[k].budgeted
  {
    if id in rows then rows[id := rows[id].(budgeted := value)] else rows
  }

  /** POST /update_account_balance: overwrite one balance. */
  method UpdateAccountBalance(db: Store, accountId: Option<int>, balance: Option<int>) returns (r: Result<()>)
    requires db.Valid()
    modifies db
    ensures db.Valid()
    ensures accountId.None? || balance.None? ==> r == Err("Missing account_id or balance") && unchanged(db)
    ensures accountId.Some? && balance.Some? ==>
              r == Ok(()) &&
              db.accounts == old(db.accounts).(rows := SetBalance(old(db.accounts.rows), accountId.value, balance.value)) &&
              db.categories == old(db.categories) && db.purchases == old(db.purchases) && db.periods == old(db.periods)
  {
    if accountId.None? || balance.None? {
      return Err("Missing account_id or balance");
    }
    db.accounts := db.accounts.(rows := SetBalance(db.accounts.rows, accountId.value, balance.value));
    return Ok(());
  }

  /** POST /update_budget_amount: overwrite one budgeted amount; the current balance stays. */
  method UpdateBudgetAmount(db: Store, categoryId: Option<int>, amount: Option<int>) returns (r: Result<()>)
    requires db.Valid()
    modifies db
    ensures db.Valid()
    ensures categoryId.None? || amount.None? ==> r == Err("Missing category_id or budget_amount") && unchanged(db)
    ensures categoryId.Some? && amount.Some? ==>
              r == Ok(()) &&
              db.categories == old(db.categories).(rows := SetBudgeted(old(db.categories.rows), categoryId.value, amount.value)) &&
              db.accounts == old(db.accounts) && db.purchases == old(db.purchases) && db.periods == old(db.periods)
  {
    if categoryId.None? || amount.None? {
      return Err("Missing category_id or budget_amount");
    }
    db.categories := db.categories.(rows := SetBudgeted(db.categories.rows, categoryId.value, amount.value));
    return Ok(());
  }

  /** Deactivate every period, then activate the one with id `id`. */
  function ActivateOnly(rows: map<int, Period>, id: int): (r: map<int, Period>)
    ensures r.Keys == rows.Keys
    ensures forall k :: k in r ==> (r[k].active <==> k == id)
    ensures forall k :: k in r ==> r[k].name == rows[k].name && r[k].start == rows[k].start && r[k].end == rows[k].end
  {
    map k | k in rows :: rows[k].(active := k == id)
  }

  /** POST /set_active_period. */
  method SetActivePeriod(db: Store, periodId: Option<int>) returns (r: Result<()>)
    requires db.Valid()
    modifies db
    ensures db.Valid()
    ensures periodId.None? ==> r == Err("Missing period_id") && unchanged(db)
    ensures periodId.Some? ==>
              r == Ok(()) &&
              db.periods == old(db.periods).(rows := ActivateOnly(old(db.periods.rows), periodId.value)) &&
              db.accounts == old(db.accounts) && db.categories == old(db.categories) && db.purchases == old(db.purchases)
  {
    if periodId.None? {
      return Err("Missing period_id");
    }
    db.periods := db.periods.(rows := ActivateOnly(db.periods.rows, periodId.value));
    return Ok(());
  }

  /** After the switch at most one period is active, and exactly one when the id exists. */
  lemma {:induction false} ActivateOnlySingle(rows: map<int, Period>, id: int)
    ensures var r := ActivateOnly(rows, id);
            forall i, j :: i in r && j in r && r[i].active && r[j].active ==> i == j
    ensures (exists k :: k in ActivateOnly(rows, id) && ActivateOnly(rows, id)[k].active) <==> id in rows
  {
    if id in rows {
      assert ActivateOnly(rows, id)[id].active;
    }
  }

  /** The `remaining` figure of /get_budget_categories: the budget less the magnitude of
      the current balance, whatever its sign. */
  function Remaining(budgeted: int, current: int): (r: int)
    ensures r <= budgeted
    ensures r == budgeted <==> current == 0
    ensures r == budgeted - current || r == budgeted + current
  {
    budgeted - (if current < 0 then -current else current)
  }

  /** The six placeholder accounts `init_db` creates. */
  function DefaultAccountNames(): seq<string> {
    ["Bank Account 1", "Bank Account 2", "Bank Account 3", "Bank Account 4", "Bank Account 5", "Bank Account 6"]
  }

  /** `init_db`'s default accounts: each is inserted with type 'bank' and balance 0 unless
      an account of that name already exists. */
  method InitDefaultAccounts(db: Store)
    requires db.Valid()
    modifies db
    ensures db.Valid()
    ensures db.accounts == EnsureAccounts(old(db.accounts), DefaultAccountNames(), "bank").0
    ensures db.categories == old(db.categories) && db.purchases == old(db.purchases) && db.periods == old(db.periods)
  {
    var accounts, _ := InsertAccountsIfAbsent(db.accounts, DefaultAccountNames(), "bank");
    db.accounts := accounts;
  }

}
