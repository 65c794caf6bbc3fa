/** The clean-up script: four DELETE passes committed together. Generic accounts with
    nothing in them go, then the seven default categories, then nameless empty categories,
    and finally (only when the user confirms) purchases whose account no longer exists. */
module Cleanup {
  import opened Common
  import opened Template
  import opened Ledger

  /** `name LIKE 'Bank Account %' OR name LIKE 'Account %' OR name = '' OR name IS NULL`;
      the name column is NOT NULL, so an empty name stands for both of the last two. */
  predicate IsGenericName(name: string) {
    StartsWith(name, "Bank Account ") || StartsWith(name, "Account ") || name == ""
  }

  function BadAccountIds(rows: map<int, Account>): set<int> {
    set k | k in rows && IsGenericName(rows[k].name) && rows[k].balance == 0
  }

  /** The defaults `init_db` once created, removed in step 2. */
  const Unwanted: seq<string> := ["Food", "Transport", "Shopping", "Bills", "Entertainment", "Health", "Other"]

  /** `name IN (…) AND NOT (name LIKE 'Peanut -%' OR name LIKE 'Robert -%')`. */
  predicate IsUnwanted(name: string) {
    name in Unwanted && !(StartsWith(name, "Peanut -") || StartsWith(name, "Robert -"))
  }

  function UnwantedIds(rows: map<int, Category>): set<int> {
    set k | k in rows && IsUnwanted(rows[k].name)
  }

  /** `(name = '' OR name IS NULL) AND budgeted_amount = 0 AND current_balance = 0`. */
  function EmptyCategoryIds(rows: map<int, Category>): set<int> {
    set k | k in rows && rows[k].name == "" && rows[k].budgeted == 0 && rows[k].current == 0
  }

  /** `account_id IS NOT NULL AND account_id NOT IN (SELECT id FROM accounts)`. */
  function OrphanIds(purchases: map<int, Purchase>, accounts: map<int, Account>): set<int> {
    set k | k in purchases && purchases[k].account.Some? && purchases[k].account.value !in accounts
  }

  datatype CleanupCounts = CleanupCounts(accounts: nat, unwanted: nat, empty: nat, orphans: nat)

  /** Deleting a set of ids from a table removes exactly that many rows. */
  lemma {:induction false} DeleteCount<T>(rows: map<int, T>, ids: set<int>)
    requires ids <= rows.Keys
    ensures |rows - ids| == |rows| - |ids|
  {
    assert (rows - ids).Keys == rows.Keys - ids;
  }

  /** The four passes in order; `confirm` is the answer to the prompt, asked only when
      orphans exist. The orphans are those left after the account pass. The counts are the
      rows each pass found, the last one the orphans deleted. */
  method DeletePasses(db: Store, confirm: bool) returns (c: CleanupCounts)
    requires db.Valid()
    modifies db
    ensures db.Valid()
    ensures db.accounts == old(db.accounts).(rows := old(db.accounts.rows) - BadAccountIds(old(db.accounts.rows)))
    ensures var cats1 := old(db.categories.rows) - UnwantedIds(old(db.categories.rows));
            db.categories == old(db.categories).(rows := cats1 - EmptyCategoryIds(cats1))
    ensures var orphans := OrphanIds(old(db.purchases.rows), db.accounts.rows);
            db.purchases == (if confirm then old(db.purchases).(rows := old(db.purchases.rows) - orphans) else old(db.purchases)) &&
            c.orphans == (if confirm then |orphans| else 0)
    ensures |db.accounts.rows| == |old(db.accounts.rows)| - c.accounts
    ensures |db.categories.rows| == |old(db.categories.rows)| - c.unwanted - c.empty
    ensures |db.purchases.rows| == |old(db.purchases.rows)| - c.orphans
    ensures db.periods == old(db.periods)
  {
    var badAccounts := BadAccountIds(db.accounts.rows);
    DeleteCount(db.accounts.rows, badAccounts);
    db.accounts := db.accounts.(rows := db.accounts.rows - badAccounts);

    var unwanted := UnwantedIds(db.categories.rows);
    DeleteCount(db.categories.rows, unwanted);
    db.categories := db.categories.(rows := db.categories.rows - unwanted);

    var empty := EmptyCategoryIds(db.categories.rows);
    DeleteCount(db.categories.rows, empty);
    db.categories := db.categories.(rows := db.categories.rows - empty);

    var orphans := OrphanIds(db.purchases.rows, db.accounts.rows);
    var deleted := 0;
    if |orphans| > 0 && confirm {
      DeleteCount(db.purchases.rows, orphans);
      db.purchases := db.purchases.(rows := db.purchases.rows - orphans);
      deleted := |orphans|;
    } else if confirm {
      assert orphans == {};
      assert db.purchases.rows - orphans == db.purchases.rows;
    }
    c := CleanupCounts(|badAccounts|, |unwanted|, |empty|, deleted);
  }

  /** The accounts the first pass keeps. */
  function KeptAccounts(rows: map<int, Account>): map<int, Account> {
    rows - BadAccountIds(rows)
  }

  /** The categories the second and third passes keep. */
  function KeptCategories(rows: map<int, Category>): map<int, Category> {
    var cats1 := rows - UnwantedIds(rows);
    cats1 - EmptyCategoryIds(cats1)
  }

  /** `name IS NOT NULL AND LENGTH(TRIM(name)) > 0` fails: the name is empty or only spaces. */
  predicate Blank(name: string) {
    forall i :: 0 <= i < |name| ==> name[i] == ' '
  }

  predicate AnyBlankAccount(rows: map<int, Account>) {
    exists k :: k in rows && Blank(rows[k].name)
  }

  predicate AnyBlankCategory(rows: map<int, Category>) {
    exists k :: k in rows && Blank(rows[k].name)
  }

  /** Step 5 refuses to add a name check: it is not there yet and a kept row breaks it. */
  predicate CheckRefused(accounts: map<int, Account>, categories: map<int, Category>,
                         accountCheck: bool, categoryCheck: bool) {
    (!accountCheck && AnyBlankAccount(KeptAccounts(accounts))) ||
    (!categoryCheck && AnyBlankCategory(KeptCategories(categories)))
  }

  /** `cleanup_database`: the passes of `DeletePasses` in one transaction. A pass that would
      delete an account or a category some purchase still names is refused by the foreign
      key, and the whole run is rolled back. Step 5 then adds the `CHECK` on account names
      unless `accountCheck` says it is already there, and the one on category names unless
      `categoryCheck` does. A kept row with a blank name makes `ADD CONSTRAINT` fail; the
      error is caught without a savepoint, so the next statement meets an aborted
      transaction and the whole run is rolled back. */
  method CleanupDatabase(db: Store, confirm: bool, accountCheck: bool, categoryCheck: bool) returns (r: Result<CleanupCounts>)
    requires db.Valid()
    modifies db
    ensures db.Valid()
    ensures AccountsReferenced(old(db.purchases.rows), BadAccountIds(old(db.accounts.rows))) ==>
              r == Err(AccountInUse) && unchanged(db)
    ensures var unwanted := UnwantedIds(old(db.categories.rows));
            !AccountsReferenced(old(db.purchases.rows), BadAccountIds(old(db.accounts.rows))) &&
            (CategoriesReferenced(old(db.purchases.rows), unwanted) ||
             CategoriesReferenced(old(db.purchases.rows), EmptyCategoryIds(old(db.categories.rows) - unwanted))) ==>
              r == Err(CategoryInUse) && unchanged(db)
    ensures var unwanted := UnwantedIds(old(db.categories.rows));
            !AccountsReferenced(old(db.purchases.rows), BadAccountIds(old(db.accounts.rows))) &&
            !CategoriesReferenced(old(db.purchases.rows), unwanted) &&
            !CategoriesReferenced(old(db.purchases.rows), EmptyCategoryIds(old(db.categories.rows) - unwanted)) &&
            CheckRefused(old(db.accounts.rows), old(db.categories.rows), accountCheck, categoryCheck) ==>
              r == Err(TransactionAborted) && unchanged(db)
    ensures r.Ok? <==>
              !AccountsReferenced(old(db.purchases.rows), BadAccountIds(old(db.accounts.rows))) &&
              !CategoriesReferenced(old(db.purchases.rows), UnwantedIds(old(db.categories.rows))) &&
              !CategoriesReferenced(old(db.purchases.rows), EmptyCategoryIds(old(db.categories.rows) - UnwantedIds(old(db.categories.rows)))) &&
              !CheckRefused(old(db.accounts.rows), old(db.categories.rows), accountCheck, categoryCheck)
    ensures r.Ok? ==> db.accounts == old(db.accounts).(rows := KeptAccounts(old(db.accounts.rows)))
    ensures r.Ok? ==> db.categories == old(db.categories).(rows := KeptCategories(old(db.categories.rows)))
    ensures r.Ok? ==>
              var orphans := OrphanIds(old(db.purchases.rows), db.accounts.rows);
              db.purchases == (if confirm then old(db.purchases).(rows := old(db.purchases.rows) - orphans) else old(db.purchases)) &&
              r.value.orphans == (if confirm then |orphans| else 0)
    ensures r.Ok? ==>
              |db.accounts.rows| == |old(db.accounts.rows)| - r.value.accounts &&
              |db.categories.rows| == |old(db.categories.rows)| - r.value.unwanted - r.value.empty &&
              |db.purchases.rows| == |old(db.purchases.rows)| - r.value.orphans
    ensures r.Ok? && !accountCheck ==> forall k :: k in db.accounts.rows ==> !Blank(db.accounts.rows[k].name)
    ensures r.Ok? && !categoryCheck ==> forall k :: k in db.categories.rows ==> !Blank(db.categories.rows[k].name)
    ensures db.periods == old(db.periods)
  {
    if AccountsReferenced(db.purchases.rows, BadAccountIds(db.accounts.rows)) {
      return Err(AccountInUse);
    }
    var unwanted := UnwantedIds(db.categories.rows);
    if CategoriesReferenced(db.purchases.rows, unwanted) ||
       CategoriesReferenced(db.purchases.rows, EmptyCategoryIds(db.categories.rows - unwanted)) {
      return Err(CategoryInUse);
    }
    if CheckRefused(db.accounts.rows, db.categories.rows, accountCheck, categoryCheck) {
      return Err(TransactionAborted);
    }
    var c := DeletePasses(db, confirm);
    return Ok(c);
  }

  /** A name of spaces only is not generic, so the account pass keeps it and, while the
      account check is not there yet, the run is rolled back. */
  lemma {:induction false} SpacesNameAborts(accounts: map<int, Account>, categories: map<int, Category>, k: int, categoryCheck: bool)
    requires k in accounts && |accounts[k].name| > 0 && Blank(accounts[k].name)
    ensures k in KeptAccounts(accounts)
    ensures CheckRefused(accounts, categories, false, categoryCheck)
  {
    var name := accounts[k].name;
    assert name[0] == ' ';
    assert !IsGenericName(name);
    assert k !in BadAccountIds(accounts);
  }

  /** An account with money in it is never deleted, and neither is one whose name is not
      generic. */
  lemma {:induction false} AccountsKept(rows: map<int, Account>)
    ensures forall k :: k in rows && (rows[k].balance != 0 || !IsGenericName(rows[k].name)) ==>
              k in rows - BadAccountIds(rows) && (rows - BadAccountIds(rows))[k] == rows[k]
    ensures forall k :: k in rows && k !in rows - BadAccountIds(rows) ==> rows[k].balance == 0
  {
  }

  /** No default name starts with "Peanut -" or "Robert -", so the exclusion in step 2
      never spares a default. */
  lemma {:induction false} OwnerGuardRedundant(name: string)
    requires name in Unwanted
    ensures IsUnwanted(name)
  {
    assert forall u :: u in Unwanted ==> '-' !in u;
    if |name| >= 8 {
      assert name[7] in name;
      assert name[..8][7] == name[7];
    }
  }

  /** A category named "owner - category", as every template category is, survives steps 2
      and 3. */
  lemma {:induction false} OwnedCategoriesSurvive(rows: map<int, Category>, owner: string, item: string)
    ensures forall k :: k in rows && rows[k].name == OwnedName(owner, item) ==>
              k !in UnwantedIds(rows) && k !in EmptyCategoryIds(rows)
  {
    var name := OwnedName(owner, item);
    assert name[|owner| + 1] == '-';
    assert '-' in name;
    assert forall u :: u in Unwanted ==> '-' !in u;
  }

  /** A successful account pass leaves no new orphan: it deletes only accounts no
      purchase names, so the orphans after it are those before it, and there are none on a
      table that keeps the foreign key. */
  lemma {:induction false} AccountPassCreatesNoOrphans(purchases: map<int, Purchase>, accounts: map<int, Account>)
    requires !AccountsReferenced(purchases, BadAccountIds(accounts))
    ensures OrphanIds(purchases, accounts - BadAccountIds(accounts)) == OrphanIds(purchases, accounts)
    ensures AccountRefsValid(purchases, accounts) ==> OrphanIds(purchases, accounts - BadAccountIds(accounts)) == {}
  {
    var bad := BadAccountIds(accounts);
    forall k | k in OrphanIds(purchases, accounts - bad)
      ensures k in OrphanIds(purchases, accounts)
    {
      assert purchases[k].account.value !in bad;
    }
    if AccountRefsValid(purchases, accounts) {
      assert forall k :: k !in OrphanIds(purchases, accounts);
    }
  }

  /** After a confirmed clean-up every purchase that names an account names an existing
      one, and every other purchase is kept as it was. */
  lemma {:induction false} ConfirmedCleanupLeavesNoOrphans(purchases: map<int, Purchase>, accounts: map<int, Account>)
    ensures var rest := purchases - OrphanIds(purchases, accounts);
            AccountRefsValid(rest, accounts) &&
            forall k :: k in purchases && (purchases[k].account.None? || purchases[k].account.value in accounts) ==>
              k in rest && rest[k] == purchases[k]
  {
  }
}
