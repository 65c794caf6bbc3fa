/** The four tables of the budget database (accounts, budget_categories, purchases,
    budget_periods) and the row-level updates the scripts share. Amounts are integer cents
    (the columns are DECIMAL(10,2)); ids come from a SERIAL counter. */
module Ledger {
  import opened Common
  import opened Dates

  datatype Account = Account(name: string, accountType: string, balance: int)

  /** `period` is the nullable `period_id` column added by the 12-month migration. */
  datatype Category = Category(name: string, budgeted: int, current: int, period: Option<int>)

  /** A negative amount records income. */
  datatype Purchase = Purchase(user: string, amount: int, account: Option<int>, category: Option<int>,
                               description: string, date: string)

  datatype Period = Period(name: string, start: Date, end: Date, active: bool)

  /** A table: its rows by id and the next value of its SERIAL id sequence. */
  datatype Table<T> = Table(rows: map<int, T>, nextId: int) {
    predicate Valid() {
      1 <= nextId && forall k :: k in rows ==> 1 <= k < nextId
    }

    /** INSERT: the row gets the next serial id. */
    function Insert(row: T): (t: Table<T>)
      requires Valid()
      ensures t.Valid() && nextId !in rows
      ensures t.rows == rows[nextId := row] && t.nextId == nextId + 1
      ensures |t.rows| == |rows| + 1
    {
      Table(rows[nextId := row], nextId + 1)
    }

    /** INSERTs of `rs` in order. */
    function InsertAll(rs: seq<T>): (t: Table<T>)
      requires Valid()
      ensures t.Valid() && t.nextId == nextId + |rs|
      decreases |rs|
    {
      if |rs| == 0 then this else InsertAll(rs[..|rs| - 1]).Insert(rs[|rs| - 1])
    }

    /** An INSERT that did not store its row still consumed a value of the sequence. */
    function Skip(): (t: Table<T>)
      requires Valid()
      ensures t.Valid() && t.rows == rows && t.nextId == nextId + 1
    {
      Table(rows, nextId + 1)
    }
  }

  /** Inserting `rs` in order gives row `j` the id `nextId + j`, keeps every earlier row
      and adds nothing else. */
  lemma {:induction false} InsertAllRows<T>(t: Table<T>, rs: seq<T>)
    requires t.Valid()
    ensures var r := t.InsertAll(rs);
            (forall k :: k in t.rows ==> k in r.rows && r.rows[k] == t.rows[k]) &&
            (forall k :: t.nextId <= k < t.nextId + |rs| ==> k in r.rows && r.rows[k] == rs[k - t.nextId]) &&
            (forall k :: k in r.rows ==> k in t.rows || t.nextId <= k < t.nextId + |rs|) &&
            |r.rows| == |t.rows| + |rs|
    decreases |rs|
  {
    if |rs| > 0 {
      var init := rs[..|rs| - 1];
      InsertAllRows(t, init);
      var prev := t.InsertAll(init);
      var r := t.InsertAll(rs);
      assert r == prev.Insert(rs[|rs| - 1]);
      forall k | t.nextId <= k < t.nextId + |rs|
        ensures k in r.rows && r.rows[k] == rs[k - t.nextId]
      {
        if k < t.nextId + |init| {
          assert init[k - t.nextId] == rs[k - t.nextId];
        }
      }
    }
  }

  predicate AccountNamesUnique(rows: map<int, Account>) {
    forall i, j :: i in rows && j in rows && rows[i].name == rows[j].name ==> i == j
  }

  predicate CategoryNamesUnique(rows: map<int, Category>) {
    forall i, j :: i in rows && j in rows && rows[i].name == rows[j].name ==> i == j
  }

  predicate PeriodNamesUnique(rows: map<int, Period>) {
    forall i, j :: i in rows && j in rows && rows[i].name == rows[j].name ==> i == j
  }

  /** The `UNIQUE (name, period_id)` constraint the migration adds: two categories of the
      same period never share a name. As in SQL, rows with a NULL period are not
      constrained. */
  predicate CategoryKeysUnique(rows: map<int, Category>) {
    forall i, j ::
      (i in rows && j in rows && rows[i].period.Some? && rows[i].name == rows[j].name && rows[i].period == rows[j].period) ==> i == j
  }

  /** The foreign key `purchases.account_id REFERENCES accounts (id)`: every purchase
      names no account or an existing one. */
  predicate AccountRefsValid(purchases: map<int, Purchase>, accounts: map<int, Account>) {
    forall k :: k in purchases && purchases[k].account.Some? ==> purchases[k].account.value in accounts
  }

  /** The errors PostgreSQL raises when a DELETE would leave a reference dangling. */
  /** What PostgreSQL answers to every statement after one has failed inside the transaction. */
  const TransactionAborted: string := "current transaction is aborted, commands ignored until end of transaction block"

  /** The error the `(name, period_id)` constraint raises. */
  const DuplicateCategoryKey: string := "duplicate key value violates unique constraint \"budget_categories_name_period_unique\""
  const AccountInUse: string := "update or delete on table \"accounts\" violates foreign key constraint \"purchases_account_id_fkey\" on table \"purchases\""
  const CategoryInUse: string := "update or delete on table \"budget_categories\" violates foreign key constraint \"purchases_budget_category_id_fkey\" on table \"purchases\""
  const PeriodInUse: string := "update or delete on table \"budget_periods\" violates foreign key constraint \"budget_categories_period_id_fkey\" on table \"budget_categories\""

  /** Some purchase names one of the accounts `ids`: a DELETE of them violates the
      foreign key of `purchases.account_id`. */
  predicate AccountsReferenced(purchases: map<int, Purchase>, ids: set<int>) {
    exists k :: k in purchases && purchases[k].account.Some? && purchases[k].account.value in ids
  }

  /** Some purchase is filed under one of the categories `ids`: a DELETE of them violates
      the foreign key of `purchases.budget_category_id`. */
  predicate CategoriesReferenced(purchases: map<int, Purchase>, ids: set<int>) {
    exists k :: k in purchases && purchases[k].category.Some? && purchases[k].category.value in ids
  }

  /** Some category belongs to one of the periods `ids`: a DELETE of them violates the
      foreign key of `budget_categories.period_id`. */
  predicate PeriodsReferenced(categories: map<int, Category>, ids: set<int>) {
    exists k :: k in categories && categories[k].period.Some? && categories[k].period.value in ids
  }

  /** The database. `accounts.name` and `budget_periods.period_name` are UNIQUE columns;
      category names are not unique once the migration has dropped that constraint. */
  class Store {
    var accounts: Table<Account>
    var categories: Table<Category>
    var purchases: Table<Purchase>
    var periods: Table<Period>

    ghost predicate Valid()
      reads this
    {
      accounts.Valid() && categories.Valid() && purchases.Valid() && periods.Valid() &&
      AccountNamesUnique(accounts.rows) && PeriodNamesUnique(periods.rows)
    }

    constructor()
      ensures Valid()
      ensures accounts.rows == map[] && categories.rows == map[] && purchases.rows == map[] && periods.rows == map[]
    {
      accounts := Table(map[], 1);
      categories := Table(map[], 1);
      purchases := Table(map[], 1);
      periods := Table(map[], 1);
    }
  }

  /** The smallest id of a set, or None for the empty set. */
  function LowestKey(ks: set<int>): (r: Option<int>)
    ensures r.None? <==> ks == {}
    ensures r.Some? ==> r.value in ks && forall k :: k in ks ==> r.value <= k
  {
    if ks == {} then None
    else
      NonEmptyHasElement(ks);
      Some(MinOf(ks))
  }

  function AccountsNamed(rows: map<int, Account>, name: string): set<int> {
    set k | k in rows && rows[k].name == name
  }

  function CategoriesNamed(rows: map<int, Category>, name: string): set<int> {
    set k | k in rows && rows[k].name == name
  }

  function PeriodsNamed(rows: map<int, Period>, name: string): set<int> {
    set k | k in rows && rows[k].name == name
  }

  /** `SELECT id FROM accounts WHERE name = %s` followed by `fetchone()`; with no ORDER BY
      the row returned is taken to be the one with the lowest id. */
  function FindAccount(rows: map<int, Account>, name: string): (r: Option<int>)
    ensures r.None? <==> forall k :: k in rows ==> rows[k].name != name
    ensures r.Some? ==> r.value in rows && rows[r.value].name == name
    ensures r.Some? ==> forall k :: k in rows && rows[k].name == name ==> r.value <= k
  {
    var r := LowestKey(AccountsNamed(rows, name));
    assert forall k :: k in rows && rows[k].name == name ==> k in AccountsNamed(rows, name);
    r
  }

  /** Account lookup by name sees only ids and names, so balance updates do not change it. */
  lemma {:induction false} FindAccountSameNames(a: map<int, Account>, b: map<int, Account>, name: string)
    requires a.Keys == b.Keys && forall k :: k in a ==> a[k].name == b[k].name
    ensures FindAccount(a, name) == FindAccount(b, name)
  {
    assert forall k :: k in AccountsNamed(a, name) <==> k in AccountsNamed(b, name);
    assert AccountsNamed(a, name) == AccountsNamed(b, name);
  }

  /** `SELECT id FROM budget_categories WHERE name = %s` followed by `fetchone()`. */
  function FindCategory(rows: map<int, Category>, name: string): (r: Option<int>)
    ensures r.None? <==> forall k :: k in rows ==> rows[k].name != name
    ensures r.Some? ==> r.value in rows && rows[r.value].name == name
    ensures r.Some? ==> forall k :: k in rows && rows[k].name == name ==> r.value <= k
  {
    var r := LowestKey(CategoriesNamed(rows, name));
    assert forall k :: k in rows && rows[k].name == name ==> k in CategoriesNamed(rows, name);
    r
  }

  /** The lookup of an existing category's own name finds a category of that name. */
  lemma {:induction false} FindCategoryOf(rows: map<int, Category>, k: int)
    requires k in rows
    ensures FindCategory(rows, rows[k].name).Some? && FindCategory(rows, rows[k].name).value <= k
  {
  }

  /** `SELECT id FROM budget_periods WHERE period_name = %s` followed by `fetchone()`. */
  function FindPeriod(rows: map<int, Period>, name: string): (r: Option<int>)
    ensures r.None? <==> forall k :: k in rows ==> rows[k].name != name
    ensures r.Some? ==> r.value in rows && rows[r.value].name == name
    ensures r.Some? ==> forall k :: k in rows && rows[k].name == name ==> r.value <= k
  {
    var r := LowestKey(PeriodsNamed(rows, name));
    assert forall k :: k in rows && rows[k].name == name ==> k in PeriodsNamed(rows, name);
    r
  }

  /** `UPDATE accounts SET balance = balance + delta WHERE id = id`: only that row, and
      only its balance, changes; an unknown id changes nothing. */
  function AdjustBalance(rows: map<int, Account>, id: int, delta: int): (r: map<int, Account>)
    ensures r.Keys == rows.Keys
    ensures forall k :: k in r ==> r[k].name == rows[k].name && r[k].accountType == rows[k].accountType
    ensures forall k :: k in r ==> r[k].balance == rows[k].balance + (if k == id then delta else 0)
  {
    if id in rows then rows[id := rows[id].(balance := rows[id].balance + delta)] else rows
  }

  /** `UPDATE budget_categories SET current_balance = current_balance + delta WHERE id = id`. */
  function AdjustCurrent(rows: map<int, Category>, id: int, delta: int): (r: map<int, Category>)
    ensures r.Keys == rows.Keys
    ensures forall k :: k in r ==> r[k].name == rows[k].name && r[k].budgeted == rows[k].budgeted && r[k].period == rows[k].period
    ensures forall k :: k in r ==> r[k].current == rows[k].current + (if k == id then delta else 0)
  {
    if id in rows then rows[id := rows[id].(current := rows[id].current + delta)] else rows
  }

  /** `UPDATE budget_categories SET period_id = pid WHERE period_id IS NULL`. */
  function AssignNullPeriod(rows: map<int, Category>, pid: int): (r: map<int, Category>)
    ensures r.Keys == rows.Keys
    ensures forall k :: k in r ==> r[k].period == (if rows[k].period.None? then Some(pid) else rows[k].period)
    ensures forall k :: k in r ==> r[k].name == rows[k].name && r[k].budgeted == rows[k].budgeted && r[k].current == rows[k].current
  {
    map k | k in rows :: if rows[k].period.None? then rows[k].(period := Some(pid)) else rows[k]
  }

  /** The ids of the active periods. */
  function ActivePeriodIds(rows: map<int, Period>): set<int> {
    set k | k in rows && rows[k].active
  }

  function NullPeriodCategories(rows: map<int, Category>): set<int> {
    set k | k in rows && rows[k].period.None?
  }

  /** `INSERT INTO accounts (name, account_type, balance) VALUES (name, type, 0)
      ON CONFLICT (name) DO NOTHING`: inserted tells whether a row was stored. */
  function InsertAccountIfAbsent(t: Table<Account>, name: string, accountType: string): (r: (Table<Account>, bool))
    requires t.Valid() && AccountNamesUnique(t.rows)
    ensures r.0.Valid() && AccountNamesUnique(r.0.rows)
    ensures r.1 <==> forall k :: k in t.rows ==> t.rows[k].name != name
    ensures r.1 ==> r.0 == t.Insert(Account(name, accountType, 0))
    ensures !r.1 ==> r.0 == t.Skip()
  {
    if FindAccount(t.rows, name).None? then (t.Insert(Account(name, accountType, 0)), true)
    else (t.Skip(), false)
  }

  /** After an insert-if-absent the name is present and every earlier row is unchanged. */
  lemma {:induction false} InsertAccountIfAbsentKeeps(t: Table<Account>, name: string, accountType: string)
    requires t.Valid() && AccountNamesUnique(t.rows)
    ensures var r := InsertAccountIfAbsent(t, name, accountType);
            FindAccount(r.0.rows, name).Some? &&
            (forall k :: k in t.rows ==> k in r.0.rows && r.0.rows[k] == t.rows[k]) &&
            |r.0.rows| == |t.rows| + (if r.1 then 1 else 0)
  {
    var r := InsertAccountIfAbsent(t, name, accountType);
    if r.1 {
      assert r.0.rows[t.nextId].name == name;
    } else {
      var k := FindAccount(t.rows, name).value;
      assert r.0.rows[k].name == name;
    }
  }

  /** Insert-if-absent for a list of account names in order, as `init_db` and `fix_database`
      do; the second component counts the rows actually stored. */
  function EnsureAccounts(t: Table<Account>, names: seq<string>, accountType: string): (r: (Table<Account>, nat))
    requires t.Valid() && AccountNamesUnique(t.rows)
    ensures r.0.Valid() && AccountNamesUnique(r.0.rows)
    decreases |names|
  {
    if |names| == 0 then (t, 0)
    else
      var prev := EnsureAccounts(t, names[..|names| - 1], accountType);
      var step := InsertAccountIfAbsent(prev.0, names[|names| - 1], accountType);
      (step.0, prev.1 + (if step.1 then 1 else 0))
  }

  /** The loop `for name in names: INSERT … ON CONFLICT (name) DO NOTHING` on the account
      table as the open transaction sees it, counting the rows stored. */
  method InsertAccountsIfAbsent(t0: Table<Account>, names: seq<string>, accountType: string) returns (t: Table<Account>, added: nat)
    requires t0.Valid() && AccountNamesUnique(t0.rows)
    ensures (t, added) == EnsureAccounts(t0, names, accountType)
  {
    t, added := t0, 0;
    var i := 0;
    while i < |names|
      invariant 0 <= i <= |names|
      invariant (t, added) == EnsureAccounts(t0, names[..i], accountType)
    {
      assert names[..i + 1][..i] == names[..i];
      var step := InsertAccountIfAbsent(t, names[i], accountType);
      t := step.0;
      if step.1 {
        added := added + 1;
      }
      i := i + 1;
    }
    assert names[..i] == names;
  }

  /** An insert-if-absent pass keeps every earlier account, and the count is the number of
      rows added. */
  lemma {:induction false} EnsureAccountsKeeps(t: Table<Account>, names: seq<string>, accountType: string)
    requires t.Valid() && AccountNamesUnique(t.rows)
    ensures var r := EnsureAccounts(t, names, accountType);
            (forall k :: k in t.rows ==> k in r.0.rows && r.0.rows[k] == t.rows[k]) &&
            |r.0.rows| == |t.rows| + r.1 && r.1 <= |names|
    decreases |names|
  {
    if |names| > 0 {
      var init := names[..|names| - 1];
      EnsureAccountsKeeps(t, init, accountType);
      InsertAccountIfAbsentKeeps(EnsureAccounts(t, init, accountType).0, names[|names| - 1], accountType);
    }
  }

  /** Every account the pass adds is a listed name with the given type and balance 0. */
  lemma {:induction false} EnsureAccountsNew(t: Table<Account>, names: seq<string>, accountType: string)
    requires t.Valid() && AccountNamesUnique(t.rows)
    ensures var r := EnsureAccounts(t, names, accountType);
            forall k :: k in r.0.rows && k !in t.rows ==>
              r.0.rows[k].name in names && r.0.rows[k].accountType == accountType && r.0.rows[k].balance == 0
    decreases |names|
  {
    if |names| > 0 {
      var init := names[..|names| - 1];
      var last := names[|names| - 1];
      EnsureAccountsNew(t, init, accountType);
      var prev := EnsureAccounts(t, init, accountType);
      InsertAccountIfAbsentKeeps(prev.0, last, accountType);
      var r := EnsureAccounts(t, names, accountType);
      assert r.0 == InsertAccountIfAbsent(prev.0, last, accountType).0;
      forall k | k in r.0.rows && k !in t.rows
        ensures r.0.rows[k].name in names && r.0.rows[k].accountType == accountType && r.0.rows[k].balance == 0
      {
        if k in prev.0.rows {
          assert prev.0.rows[k].name in init;
        } else {
          assert r.0.rows[k] == Account(last, accountType, 0);
        }
      }
    }
  }

  /** After the pass every listed name exists. */
  lemma {:induction false} EnsureAccountsPresent(t: Table<Account>, names: seq<string>, accountType: string)
    requires t.Valid() && AccountNamesUnique(t.rows)
    ensures forall n :: n in names ==> FindAccount(EnsureAccounts(t, names, accountType).0.rows, n).Some?
    decreases |names|
  {
    if |names| > 0 {
      var init := names[..|names| - 1];
      var last := names[|names| - 1];
      EnsureAccountsPresent(t, init, accountType);
      var prev := EnsureAccounts(t, init, accountType);
      InsertAccountIfAbsentKeeps(prev.0, last, accountType);
      var r := EnsureAccounts(t, names, accountType);
      assert r.0 == InsertAccountIfAbsent(prev.0, last, accountType).0;
      forall n | n in names && n != last
        ensures FindAccount(r.0.rows, n).Some?
      {
        assert n in init;
        var k := FindAccount(prev.0.rows, n).value;
        assert k in r.0.rows && r.0.rows[k].name == n;
      }
    }
  }

  /** After an insert-if-absent pass every listed name exists, every earlier account is
      unchanged, every new account is a listed name with the given type and balance 0,
      and the count is the number of rows added. */
  lemma {:induction false} EnsureAccountsSpec(t: Table<Account>, names: seq<string>, accountType: string)
    requires t.Valid() && AccountNamesUnique(t.rows)
    ensures var r := EnsureAccounts(t, names, accountType);
            (forall k :: k in t.rows ==> k in r.0.rows && r.0.rows[k] == t.rows[k]) &&
            (forall k :: k in r.0.rows && k !in t.rows ==>
               r.0.rows[k].name in names && r.0.rows[k].accountType == accountType && r.0.rows[k].balance == 0) &&
            (forall n :: n in names ==> exists k :: k in r.0.rows && r.0.rows[k].name == n) &&
            |r.0.rows| == |t.rows| + r.1 && r.1 <= |names|
  {
    EnsureAccountsKeeps(t, names, accountType);
    EnsureAccountsNew(t, names, accountType);
    EnsureAccountsPresent(t, names, accountType);
    var r := EnsureAccounts(t, names, accountType);
    forall n | n in names
      ensures exists k :: k in r.0.rows && r.0.rows[k].name == n
    {
      var k := FindAccount(r.0.rows, n).value;
      assert k in r.0.rows && r.0.rows[k].name == n;
    }
  }
}
