/** The account repair script: delete the numbered placeholder accounts, spell "Bank 0" as
    "Bank Zero", then insert the configured accounts and categories that are missing. All
    of it commits together; a rename that would duplicate an account name rolls it back. */
module FixDatabase {
  import opened Common
  import opened Template
  import opened Ledger
  import opened FixCategories

  const Placeholder: string := "Bank Account "
  const OldSpelling: string := "Bank 0"
  const NewSpelling: string := "Bank Zero"

  const NoSettings: string := "config/settings.json not found"
  const DuplicateAccountName: string := "duplicate key value violates unique constraint \"accounts_name_key\""

  /** `name ~ '^Bank Account [0-9]+$'`: the prefix followed by one or more digits and
      nothing else. */
  predicate IsNumberedPlaceholder(name: string) {
    StartsWith(name, Placeholder) && AllDigits(name[|Placeholder|..])
  }

  function PlaceholderIds(rows: map<int, Account>): set<int> {
    set k | k in rows && IsNumberedPlaceholder(rows[k].name)
  }

  /** `name LIKE '%Bank 0%' AND name NOT LIKE '%Bank Zero%'`. */
  predicate NeedsRename(name: string) {
    Contains(name, OldSpelling) && !Contains(name, NewSpelling)
  }

  function RenameIds(rows: map<int, Account>): set<int> {
    set k | k in rows && NeedsRename(rows[k].name)
  }

  /** `UPDATE accounts SET name = REPLACE(name, 'Bank 0', 'Bank Zero') WHERE …`: only the
      names of the selected rows change. */
  function RenameBankZero(rows: map<int, Account>): (r: map<int, Account>)
    ensures r.Keys == rows.Keys
    ensures forall k :: k in r ==> r[k].accountType == rows[k].accountType && r[k].balance == rows[k].balance
    ensures forall k :: k in r && !NeedsRename(rows[k].name) ==> r[k] == rows[k]
  {
    map k | k in rows ::
      if NeedsRename(rows[k].name) then rows[k].(name := ReplaceAll(rows[k].name, OldSpelling, NewSpelling)) else rows[k]
  }

  /** After the rename no account needs renaming, so a second pass renames nothing and
      changes nothing. */
  lemma {:induction false} RenameIdempotent(rows: map<int, Account>)
    ensures RenameIds(RenameBankZero(rows)) == {}
    ensures RenameBankZero(RenameBankZero(rows)) == RenameBankZero(rows)
  {
    var r := RenameBankZero(rows);
    forall k | k in r
      ensures !NeedsRename(r[k].name)
    {
      if NeedsRename(rows[k].name) {
        ReplaceAllIntroduces(rows[k].name, OldSpelling, NewSpelling);
      }
    }
  }

  /** A configured account name "user - type" is never a numbered placeholder, so the
      delete never removes an account the script then ensures. */
  lemma {:induction false} ConfiguredNameNotPlaceholder(owner: string, item: string)
    ensures !IsNumberedPlaceholder(OwnedName(owner, item))
  {
    var name := OwnedName(owner, item);
    var i := |owner| + 1;
    assert name[i] == '-';
    if StartsWith(name, Placeholder) && i >= |Placeholder| {
      assert name[|Placeholder|..][i - |Placeholder|] == '-';
    }
  }

  /** `INSERT INTO budget_categories (name, budgeted_amount, current_balance)
      VALUES (name, 0, 0) ON CONFLICT (name) DO NOTHING`. */
  function InsertCategoryIfAbsent(t: Table<Category>, name: string): (r: (Table<Category>, bool))
    requires t.Valid()
    ensures r.0.Valid()
    ensures r.1 <==> forall k :: k in t.rows ==> t.rows[k].name != name
    ensures r.1 ==> r.0 == t.Insert(Category(name, 0, 0, None))
    ensures !r.1 ==> r.0 == t.Skip()
  {
    if FindCategory(t.rows, name).None? then (t.Insert(Category(name, 0, 0, None)), true)
    else (t.Skip(), false)
  }

  /** Insert-if-absent for a list of category names in order, counting the rows stored. */
  function EnsureCategoryNames(t: Table<Category>, names: seq<string>): (r: (Table<Category>, nat))
    requires t.Valid()
    ensures r.0.Valid()
    decreases |names|
  {
    if |names| == 0 then (t, 0)
    else
      var prev := EnsureCategoryNames(t, names[..|names| - 1]);
      var step := InsertCategoryIfAbsent(prev.0, names[|names| - 1]);
      (step.0, prev.1 + (if step.1 then 1 else 0))
  }

  /** The pass keeps every earlier category, and the count is the number of rows added. */
  lemma {:induction false} EnsureCategoryNamesKeeps(t: Table<Category>, names: seq<string>)
    requires t.Valid()
    ensures var r := EnsureCategoryNames(t, names);
            (forall k :: k in t.rows ==> k in r.0.rows && r.0.rows[k] == t.rows[k]) &&
            |r.0.rows| == |t.rows| + r.1 && r.1 <= |names|
    decreases |names|
  {
    if |names| > 0 {
      EnsureCategoryNamesKeeps(t, names[..|names| - 1]);
    }
  }

  /** Every category the pass adds is a listed name with nothing budgeted or spent. */
  lemma {:induction false} EnsureCategoryNamesCreates(t: Table<Category>, names: seq<string>)
    requires t.Valid()
    ensures var r := EnsureCategoryNames(t, names);
            forall k :: k in r.0.rows && k !in t.rows ==>
              r.0.rows[k].name in names && r.0.rows[k] == Category(r.0.rows[k].name, 0, 0, None)
    decreases |names|
  {
    if |names| > 0 {
      var init := names[..|names| - 1];
      EnsureCategoryNamesCreates(t, init);
      var prev := EnsureCategoryNames(t, init);
      var r := EnsureCategoryNames(t, names);
      forall k | k in r.0.rows && k !in t.rows
        ensures r.0.rows[k].name in names
      {
        if k in prev.0.rows {
          assert prev.0.rows[k].name in init;
        }
      }
    }
  }

  /** After the pass every listed name exists. */
  lemma {:induction false} EnsureCategoryNamesPresent(t: Table<Category>, names: seq<string>)
    requires t.Valid()
    ensures var r := EnsureCategoryNames(t, names);
            forall j :: 0 <= j < |names| ==> FindCategory(r.0.rows, names[j]).Some?
    decreases |names|
  {
    if |names| > 0 {
      var init := names[..|names| - 1];
      var last := names[|names| - 1];
      EnsureCategoryNamesPresent(t, init);
      var prev := EnsureCategoryNames(t, init);
      var step := InsertCategoryIfAbsent(prev.0, last);
      var r := EnsureCategoryNames(t, names);
      assert r.0 == step.0;
      forall j | 0 <= j < |names|
        ensures FindCategory(r.0.rows, names[j]).Some?
      {
        if j < |init| {
          assert names[j] == init[j];
          var k := FindCategory(prev.0.rows, init[j]).value;
          FindCategoryOf(r.0.rows, k);
        } else if step.1 {
          FindCategoryOf(r.0.rows, prev.0.nextId);
        } else {
          var k := FindCategory(prev.0.rows, last).value;
          FindCategoryOf(r.0.rows, k);
        }
      }
    }
  }

  /** The "user - category" names of the top-level template entries. */
  function EntryNames(es: seq<EntryRef>): (r: seq<string>)
    ensures |r| == |es| && forall j :: 0 <= j < |es| ==> r[j] == EntryName(es[j])
  {
    seq(|es|, j requires 0 <= j < |es| => EntryName(es[j]))
  }

  datatype FixCounts = FixCounts(deleted: nat, renamed: nat, accountsAdded: nat, categoriesAdded: nat)

  /** The accounts after the delete and the rename, before the configured inserts. */
  function Repaired(rows: map<int, Account>): map<int, Account> {
    RenameBankZero(rows - PlaceholderIds(rows))
  }

  /** Step 3: `INSERT … ON CONFLICT (name) DO NOTHING` for every configured account, of
      type "bank" with balance 0, counting the rows stored. */
  method AddConfiguredAccounts(db: Store, names: seq<string>) returns (added: nat)
    requires db.Valid()
    modifies db
    ensures db.Valid()
    ensures (db.accounts, added) == EnsureAccounts(old(db.accounts), names, "bank")
    ensures db.categories == old(db.categories) && db.purchases == old(db.purchases) && db.periods == old(db.periods)
  {
    var accounts;
    accounts, added := InsertAccountsIfAbsent(db.accounts, names, "bank");
    db.accounts := accounts;
  }


  /** Step 4: `INSERT … VALUES (name, 0, 0) ON CONFLICT (name) DO NOTHING` for every
      configured category, counting the rows stored. */
  method AddConfiguredCategories(db: Store, names: seq<string>) returns (added: nat)
    requires db.Valid()
    modifies db
    ensures db.Valid()
    ensures (db.categories, added) == EnsureCategoryNames(old(db.categories), names)
    ensures db.accounts == old(db.accounts) && db.purchases == old(db.purchases) && db.periods == old(db.periods)
  {
    added := 0;
    var i := 0;
    while i < |names|
      invariant 0 <= i <= |names|
      invariant (db.categories, added) == EnsureCategoryNames(old(db.categories), names[..i])
      invariant db.accounts == old(db.accounts) && db.purchases == old(db.purchases) && db.periods == old(db.periods)
      invariant db.Valid()
    {
      assert names[..i + 1][..i] == names[..i];
      var step := InsertCategoryIfAbsent(db.categories, names[i]);
      db.categories := step.0;
      if step.1 {
        added := added + 1;
      }
      i := i + 1;
    }
    assert names[..i] == names;
  }

  /** The four steps of `fix_database`, given the settings file (None when it is missing
      or empty, which changes nothing). A placeholder account that a purchase still names
      cannot be deleted, and a rename that would repeat a name is refused; either error
      rolls the whole run back. */
  method FixDatabase(db: Store, settings: Option<Settings>) returns (r: Result<FixCounts>)
    requires db.Valid()
    modifies db
    ensures db.Valid()
    ensures settings.None? ==> r == Err(NoSettings) && unchanged(db)
    ensures settings.Some? && AccountsReferenced(old(db.purchases.rows), PlaceholderIds(old(db.accounts.rows))) ==>
              r == Err(AccountInUse) && unchanged(db)
    ensures settings.Some? && !AccountsReferenced(old(db.purchases.rows), PlaceholderIds(old(db.accounts.rows))) &&
            !AccountNamesUnique(Repaired(old(db.accounts.rows))) ==>
              r == Err(DuplicateAccountName) && unchanged(db)
    ensures settings.Some? && !AccountsReferenced(old(db.purchases.rows), PlaceholderIds(old(db.accounts.rows))) &&
            AccountNamesUnique(Repaired(old(db.accounts.rows))) ==>
              var rows := old(db.accounts.rows);
              var accounts := EnsureAccounts(old(db.accounts).(rows := Repaired(rows)), AccountNames(settings.value.bankAccounts), "bank");
              var categories := EnsureCategoryNames(old(db.categories), EntryNames(Entries(settings.value.budget)));
              r == Ok(FixCounts(|PlaceholderIds(rows)|, |RenameIds(rows - PlaceholderIds(rows))|, accounts.1, categories.1)) &&
              db.accounts == accounts.0 && db.categories == categories.0 &&
              db.purchases == old(db.purchases) && db.periods == old(db.periods)
  {
    if settings.None? {
      return Err(NoSettings);
    }
    var s := settings.value;
    var accounts0 := db.accounts;

    var placeholders := PlaceholderIds(db.accounts.rows);
    if AccountsReferenced(db.purchases.rows, placeholders) {
      return Err(AccountInUse);
    }
    db.accounts := db.accounts.(rows := db.accounts.rows - placeholders);
    var deleted := |placeholders|;

    var renamed := |RenameIds(db.accounts.rows)|;
    var renamedRows := RenameBankZero(db.accounts.rows);
    if !AccountNamesUnique(renamedRows) {
      db.accounts := accounts0;
      return Err(DuplicateAccountName);
    }
    db.accounts := db.accounts.(rows := renamedRows);

    var accountsAdded := AddConfiguredAccounts(db, AccountNames(s.bankAccounts));
    var categoriesAdded := AddConfiguredCategories(db, EntryNames(Entries(s.budget)));
    return Ok(FixCounts(deleted, renamed, accountsAdded, categoriesAdded));
  }

  /** After a successful run every configured account exists, no account needs renaming,
      and the surviving earlier accounts keep their balances. */
  lemma {:induction false} FixDatabaseOutcome(t: Table<Account>, names: seq<string>)
    requires t.Valid() && AccountNamesUnique(Repaired(t.rows))
    ensures var before := Repaired(t.rows);
            var after := EnsureAccounts(t.(rows := before), names, "bank").0.rows;
            (forall n :: n in names ==> exists k :: k in after && after[k].name == n) &&
            (forall k :: k in before ==> k in after && after[k] == before[k]) &&
            (forall k :: k in t.rows && k !in PlaceholderIds(t.rows) ==> k in after && after[k].balance == t.rows[k].balance) &&
            RenameIds(before) == {}
  {
    var kept := t.rows - PlaceholderIds(t.rows);
    EnsureAccountsSpec(t.(rows := Repaired(t.rows)), names, "bank");
    RenameIdempotent(kept);
  }
}
