# Budget ledger model

A Dafny model of the household budget tracker's ledger: four keyed tables (accounts,
budget categories, purchases, budget periods) and the operations that the web app, the
migration and the repair and population scripts perform on them, plus the read-only
figures of the preview script and the desktop client.

- `common.dfy` (module `Common`): `Option`, `Result`, Python truthiness of ids, SQL `LIKE`
  prefixes and substrings, SQL `REPLACE`, digit strings, least element of a set of ids.
- `dates.dfy` (`Dates`): `datetime.date` with clamped `relativedelta(months=n)`,
  `timedelta(days=1)`, date comparison and `strftime("%B %Y")`.
- `template.dfy` (`Template`): the settings file as values: budget template (owner,
  category, plain amount or nested sub-amounts), income, bank accounts; the naming rule
  "owner - category[ - sub]"; the leaves of the template in visiting order.
- `ledger.dfy` (`Ledger`): the rows, `Table` (rows keyed by id plus the SERIAL counter),
  the `Store` class holding the four tables, name lookups, the single-row updates.
- `app.dfy` (`App`): the web app's handlers that change state.
- `migration.dfy` (`Migration`): the twelve generated periods and `run_migration`.
- `final_fix.dfy` (`FinalFix`): the August period switch, the period clear, the
  insert-only population and the monthly salary deposit.
- `populate.dfy` (`Populate`): the create-or-reset population and Robert's salary.
- `fix_categories.dfy` (`FixCategories`): duplicate detection and merge, and
  `ensure_config_categories`.
- `update_budget.dfy` (`UpdateBudget`): the update-budget-only population.
- `fix_database.dfy` (`FixDatabase`): placeholder delete, "Bank 0" rename and
  insert-if-absent of configured accounts and categories.
- `cleanup.dfy` (`Cleanup`): the four deletion passes.
- `period_assign.dfy` (`PeriodAssign`): the active-period pick and the NULL-period fix.
- `preview.dfy` (`Preview`): next period's name and dates and the template totals.
- `desktop.dfy` (`Desktop`): the desktop client's local table, overview, analysis and filter.

Modelling conventions:

- Amounts are integer cents, because the columns are `DECIMAL(10,2)`.
- Each script function that changes the database is a method taking the `Store` and
  stating the whole new state of all four tables. A transaction that is rolled back
  leaves the store unchanged.
- `fetchone()` on a query without `ORDER BY` is taken to return the row with the
  lowest id (`Ledger.FindAccount`, `FindCategory`, `FindPeriod`).
- A SERIAL value is consumed by every INSERT the source issues, including one that
  `ON CONFLICT DO NOTHING` or a constraint refuses (`Table.Skip`).
- `today`, the current month, timestamps and the operator's answers to prompts are
  parameters. One timestamp parameter stands for every `datetime.now()` of a run, so
  rows the source stamps a moment apart carry the same value in the model. The settings file is a `Settings` value (`None` where the script checks
  for a missing or empty file).
- Whether a constraint already exists, which the clean-up script asks
  `information_schema`, is a parameter (`Cleanup.CleanupDatabase`).
- A NULL name is modelled as the empty string.

## Model

| member | source | states |
|---|---|---|
| Ledger.Table.Insert | app.py:37 | an INSERT stores the row under the next serial id, keeps every other row and adds exactly one |
| Ledger.InsertAllRows | app.py:146-150 | inserting rows in order gives row j the id next+j, keeps every earlier row and adds nothing else |
| Ledger.LowestKey | fix_budget_categories.py:133 | the least id of a set, None exactly for the empty set |
| Ledger.FindAccount | final_fix_august.py:293-297 | the lookup by name is None exactly when no account has the name, otherwise the lowest id of an account with it |
| Ledger.FindCategory | app.py:140-143 | the lookup by name is None exactly when no category has the name, otherwise the lowest id of a category with it |
| Ledger.FindPeriod | final_fix_august.py:128-132 | the lookup by period name is None exactly when no period has the name, otherwise the lowest such id |
| Ledger.AdjustBalance | app.py:508-509 | `balance = balance + delta` changes only that account's balance; names, types, ids and other rows are kept |
| Ledger.AdjustCurrent | app.py:160-162 | `current_balance = current_balance + delta` changes only that category's current balance |
| Ledger.AssignNullPeriod | database_migration_12_months.py:204-211 | every category with a NULL period gets the given period; categories with a period and all other fields are unchanged |
| Ledger.InsertAccountIfAbsent | app.py:81-85 | a row is stored iff no account has the name; it has balance 0 and the given type; unique names stay unique |
| Ledger.InsertAccountIfAbsentKeeps | app.py:81-85 | afterwards the name exists, every earlier account is unchanged, and the table grows by one exactly when a row was stored |
| Ledger.EnsureAccountsSpec | fix_database.py:88-100 | after the insert-if-absent pass every listed name exists, earlier accounts are unchanged, new accounts are listed names of the given type with balance 0, and the count is the number of rows added |
| Ledger.InsertAccountsIfAbsent | fix_database.py:88-100 | the insert-if-absent loop leaves the account table and the count of rows stored as the insert-if-absent pass over the names in order |
| App.ResolveCategory | app.py:134-143 | an absent, empty or unknown category name resolves to NULL; otherwise to a category of that name |
| App.Recordings | app.py:146-150 | one stored row per synced element, in order, with its account and amount |
| App.SyncPurchases | app.py:119-169 | an empty list is refused with nothing changed; a list naming an account that does not exist is refused by the foreign key with nothing changed; otherwise one row is appended per element, accounts and categories are debited by the amounts of the stored rows naming them, the count equals the number of elements, and account references that resolved before still resolve |
| App.SyncKeepsAccountRefs | app.py:60-67 | storing a batch whose account ids all exist keeps every purchase's account reference resolving after the debits |
| App.SyncOneAccount | app.py:153-156 | one synced purchase lowers exactly its own account by exactly its amount, and changes no balance when it has no account |
| App.NoAccountNoDebit | app.py:153 | elements without an account debit no account |
| App.UnresolvedNotCharged | app.py:138-143 | elements whose category name is absent, empty or unknown are stored with a NULL category and debit no category |
| App.AccountDebitAppend | app.py:132-164 | the debit of two batches is the sum of their debits |
| App.DebitedKeepsValid | app.py:152-162 | the balance updates keep ids and names, so the tables stay valid and names unique |
| App.IncomeDescription | app.py:512 | the description of an income row starts with "Income: " |
| App.AddIncome | app.py:488-517 | a missing or zero target or a non-positive amount is refused with nothing changed; a target that is not an account is refused by the foreign key of the income row with nothing changed; otherwise the target is credited by the amount and one purchase of minus the amount with a NULL category is appended |
| App.SetBalance | app.py:278 | only the balance of the given account changes, to the given value |
| App.SetBudgeted | app.py:299-300 | only the budgeted amount of the given category changes; current balance, name and period are kept |
| App.UpdateAccountBalance | app.py:267-278 | a missing id or balance is refused with nothing changed; otherwise exactly that balance is overwritten |
| App.UpdateBudgetAmount | app.py:288-300 | a missing id or amount is refused with nothing changed; otherwise exactly that budgeted amount is overwritten |
| App.ActivateOnly | app.py:352-356 | afterwards a period is active iff its id is the given one; names and dates are kept |
| App.SetActivePeriod | app.py:340-356 | a missing id is refused; otherwise only the periods' active flags change, as `ActivateOnly` says |
| App.ActivateOnlySingle | app.py:352-356 | at most one period is active after the switch, and one is active exactly when the id exists |
| App.Remaining | app.py:258 | remaining is at most the budget, equals it iff nothing is spent, and is the budget less or plus the current balance |
| App.InitDefaultAccounts | app.py:71-85 | the six default accounts are inserted with type 'bank' and balance 0 unless the name exists; other tables are unchanged |
| Migration.FirstPeriodStart | database_migration_12_months.py:68-75 | the first start is on the 25th, in this month from the 25th on and in the previous month before it |
| Migration.BudgetPeriods | database_migration_12_months.py:77-98 | exactly twelve periods are generated |
| Migration.PeriodAtShape | database_migration_12_months.py:79-80 | period i starts on the 25th i months after the first start and ends on the 24th of the following month |
| Migration.PeriodsContiguous | database_migration_12_months.py:79-80 | period i+1 starts the day after period i ends |
| Migration.PeriodNamesDistinct | database_migration_12_months.py:83 | different periods get different "%B %Y" names, as the UNIQUE column needs |
| Migration.OnlyFirstActive | database_migration_12_months.py:86-87 | counted from the period containing today, exactly the first period is active |
| Migration.BudgetPeriodsShape | database_migration_12_months.py:61-98 | the first period starts at the start of the period containing today; every period runs from the 25th to the 24th of the next month, is active iff start <= today <= end, and only the first is active |
| Migration.BudgetPeriodsContiguous | database_migration_12_months.py:61-98 | each of the twelve periods starts the day after the previous one ends |
| Migration.BudgetPeriodsNamesDistinct | database_migration_12_months.py:61-98 | the twelve period names are pairwise different |
| Migration.GenerateBudgetPeriods | database_migration_12_months.py:61-98 | the loop's list is the twelve periods, with the facts above |
| Migration.InsertedPeriods | database_migration_12_months.py:143-160 | inserted into the emptied table, the periods have unique names and exactly the first inserted one is active |
| Migration.InsertPeriods | database_migration_12_months.py:148-160 | one INSERT per generated period in order; other tables unchanged |
| Migration.PurgeTransfers | database_migration_12_months.py:265-303 | exactly the purchases whose description starts with "Transfer:" or whose user is "Transfer" are deleted; the count is how many were selected |
| Migration.PurgeDeletesOnlyTransfers | database_migration_12_months.py:266-300 | a purchase survives iff it is not a transfer, and survivors are unchanged |
| Migration.IncomeIsNotTransfer | database_migration_12_months.py:270 | income rows ("Income: …") survive the purge unless their user is "Transfer" |
| Migration.Migrate | database_migration_12_months.py:145-303 | on an emptied period table: the twelve new periods are inserted with only the first active, NULL-period categories get that first period, transfers are purged, accounts unchanged, the store stays valid |
| Migration.RunMigration | database_migration_12_months.py:101-347 | as written: the run succeeds iff there were no periods and filing the NULL-period categories under the first new period repeats no (name, period) pair; then the periods are the twelve new ones with only the first active, those categories get it and transfers are purged. Every failure leaves the store unchanged: no confirmation cancels, a category filed under an old period makes the foreign key refuse the DELETE, and a confirmed recreate otherwise ends in an aborted transaction |
| Migration.RunMigrationGuarded | database_migration_12_months.py:101-347 | as intended: the run succeeds iff the periods may be replaced (none yet, or confirmed with no category filed under one) and the assignment repeats no (name, period) pair, with the same end state; each failure leaves the store unchanged with its error |
| Migration.RecreateRefusedAsWritten | database_migration_12_months.py:128-241 | one existing period, no category filed under it and a confirmed recreate: the intended run succeeds on it, the written one never does |
| Migration.AssignNullPeriodSettles | database_migration_12_months.py:204-211 | after the assignment no category lacks a period, and a second assignment changes nothing |
| FinalFix.ActivateNamed | final_fix_august.py:118-125 | afterwards a period is active iff its name is the given one |
| FinalFix.SwitchToAugustPeriod | final_fix_august.py:111-146 | returns the id of the period named "August 2025"; when there is none nothing is committed; otherwise only the active flags change |
| FinalFix.SwitchActivatesOne | final_fix_august.py:118-138 | with unique period names, exactly the returned period is active after the switch |
| FinalFix.UnlinkCategories | final_fix_august.py:166-176 | every purchase filed under one of the ids loses its category; every other purchase is unchanged |
| FinalFix.ClearPeriodCategories | final_fix_august.py:149-187 | the purchases of the period's categories are unlinked, then those categories are deleted; the result is how many there were |
| FinalFix.ClearKeepsReferences | final_fix_august.py:165-182 | after clearing, no purchase points at a deleted category, and exactly the other periods' categories remain |
| FinalFix.InsertLeaf | final_fix_august.py:219-250 | a leaf is stored iff the period has no category of its name, with budgeted = current = amount and the period; a refused insert stores nothing |
| FinalFix.InsertLeavesSpec | final_fix_august.py:209-254 | earlier categories are unchanged, every new category is a template leaf with budgeted = current = its amount in the period, every leaf name exists in the period, the count is the rows added |
| FinalFix.InsertLeavesAllCreated | final_fix_august.py:231-251 | when the period has none of the distinct leaf names, the count equals the number of leaves |
| FinalFix.PopulateBudgetCategories | final_fix_august.py:194-264 | for the id of an existing period: an empty template creates nothing and returns 0; otherwise every leaf is inserted in template order and the count is the rows stored |
| FinalFix.AsWrittenAgreesWithoutRefusal | final_fix_august.py:213-257 | while no INSERT is refused, the source's run in one transaction stores and counts exactly what the skip-and-continue run does |
| FinalFix.PopulateAsWrittenLosesRows | final_fix_august.py:213-257 | with the period already holding the second of two leaves, the source reports one category created and stores none, where skipping the refused row stores the first |
| FinalFix.FirstExistingSpec | final_fix_august.py:283-299 | the account of the first pattern that exists, and None exactly when none exists |
| FinalFix.FindSalaryAccount | final_fix_august.py:292-338 | the pattern loop stops at the first existing account, as `FirstExisting` says |
| FinalFix.DepositSalaries | final_fix_august.py:280-338 | the loop leaves the balances credited by each positive salary whose owner has a matching account, one row of minus the salary with a NULL category appended per deposit, and the total deposited |
| FinalFix.DepositedTotalBound | final_fix_august.py:329-352 | the total deposited is between 0 and the sum of positive salaries, and equals that sum when every such owner has an account |
| FinalFix.AddMonthlyIncome | final_fix_august.py:267-354 | no income deposits nothing; otherwise the result is the total deposited, balances are credited and one row per deposit appended |
| FinalFix.SalaryTargetUnchanged | final_fix_august.py:293-310 | balance updates never change which account a later salary goes to |
| Populate.ResetByName | populate_august_budget.py:56-60 | every category of that name gets budgeted = current = amount; other categories are unchanged |
| Populate.Upsert | populate_august_budget.py:50-70 | a row is created iff no category has the name |
| Populate.UpsertFrame | populate_august_budget.py:61-93 | created plus updated equals the number of leaves, and the table grows by the created count |
| Populate.UpsertRefreshes | populate_august_budget.py:54-86 | every earlier category ends reset to the last amount the template gives its name, or untouched |
| Populate.UpsertNewRows | populate_august_budget.py:64-94 | each created category has a template name, budgeted = current = its amount, and no period |
| Populate.UpsertNamesExist | populate_august_budget.py:51-94 | afterwards every leaf name exists |
| Populate.UpsertIdempotent | populate_august_budget.py:41-94 | a second run with the same template changes nothing, creates nothing and counts every leaf as updated |
| Populate.UpsertKeepsNamesUnique | populate_august_budget.py:64-70 | the upserts never create a second category of a name |
| Populate.UpsertLeaves | populate_august_budget.py:41-94 | the loops over the template leave the categories and the created and updated counts as the upsert of every leaf in order; other tables unchanged |
| Populate.PopulateAugustBudget | populate_august_budget.py:22-131 | the categories are upserted in template order; Robert's salary is credited and recorded only when positive and his account exists |
| Populate.PopulateCounts | populate_august_budget.py:38-93 | created plus updated equals the number of plain categories plus nested sub-categories |
| FixCategories.DuplicateNamesIff | fix_budget_categories.py:99-104 | a name is reported as duplicate iff two different categories carry it |
| FixCategories.MergeGroup | fix_budget_categories.py:150-182 | one group: the lowest id gets the summed amounts, the others' purchases are repointed to it and the others are deleted |
| FixCategories.FixDuplicates | fix_budget_categories.py:116-186 | with no duplicates nothing changes; otherwise categories become `Merged` and purchases are repointed to the kept ids |
| FixCategories.MergedKeepsLowest | fix_budget_categories.py:133-156 | a category survives iff it has the lowest id of its name; it keeps its name and period |
| FixCategories.MergedNamesUnique | fix_budget_categories.py:182 | after the merge category names are unique |
| FixCategories.MergedKeptAmounts | fix_budget_categories.py:159-170 | the kept category carries the summed budgeted and current amounts of its name |
| FixCategories.MergedKeepsTotals | fix_budget_categories.py:159-170 | for every name the summed budgeted and current amounts are preserved |
| FixCategories.RepointKeepsReferences | fix_budget_categories.py:172-182 | no purchase points at a deleted duplicate, and each stays with a category of the same name |
| FixCategories.NoDuplicatesNoChange | fix_budget_categories.py:137-140 | with no duplicate names the merge is the identity |
| FixCategories.EnsureEntriesErr | fix_budget_categories.py:203-212 | the pass fails only on a nested entry whose name was missing, and never when every entry is a plain amount |
| FixCategories.EnsureEntriesKeeps | fix_budget_categories.py:205-213 | existing categories are untouched |
| FixCategories.EnsureEntriesNames | fix_budget_categories.py:203-213 | after a successful pass every "user - category" name exists |
| FixCategories.EnsureEntriesCreates | fix_budget_categories.py:209-212 | created categories carry a plain entry's name with budgeted = current = its amount |
| FixCategories.EnsureAllPresent | fix_budget_categories.py:205-207 | when every name exists nothing changes |
| FixCategories.EnsureIdempotent | fix_budget_categories.py:200-213 | a second pass after a successful one changes nothing |
| FixCategories.EnsureConfigCategories | fix_budget_categories.py:189-216 | the loop's result is the insert-if-absent pass; a failure rolls everything back |
| UpdateBudget.UpdateEntry | update_budget_from_config.py:67-111 | one entry fails exactly when it is nested |
| UpdateBudget.UpdateEntriesErr | update_budget_from_config.py:78-106 | the run fails with the conversion error exactly when some entry is nested |
| UpdateBudget.UpdateEntriesFrame | update_budget_from_config.py:80-89 | every earlier category keeps its name, current balance and period; the table grows by at most the count |
| UpdateBudget.UpdateEntryRows | update_budget_from_config.py:76-107 | one entry changes only the budget of the category its name finds, or adds one category with nothing spent |
| UpdateBudget.UpdateEntriesCreates | update_budget_from_config.py:100-107 | created categories carry a configured name and amount, current balance 0 and no period |
| UpdateBudget.UpdateCountZero | update_budget_from_config.py:80-98 | a run that counts nothing changes nothing |
| UpdateBudget.UpdateEntriesConfigures | update_budget_from_config.py:65-111 | with distinct names, afterwards every entry's category has the configured budget |
| UpdateBudget.UpdateAllConfigured | update_budget_from_config.py:80-98 | when every entry is already configured the run changes nothing and counts 0 |
| UpdateBudget.SecondRunUpdatesNothing | update_budget_from_config.py:94-111 | a second identical run reports 0 and changes nothing |
| UpdateBudget.UpdateBudgetCategories | update_budget_from_config.py:51-114 | the loop's result is the entry fold; an empty template changes nothing; a failure rolls everything back |
| FixDatabase.RenameBankZero | fix_database.py:74-79 | only names holding "Bank 0" and not "Bank Zero" change; types and balances are kept |
| FixDatabase.RenameIdempotent | fix_database.py:76-78 | after the rename no name needs renaming, so a second rename changes nothing |
| FixDatabase.ConfiguredNameNotPlaceholder | fix_database.py:63-91 | a configured "user - type" name is never a numbered placeholder |
| FixDatabase.InsertCategoryIfAbsent | fix_database.py:109-117 | a category with 0/0 is stored iff the name is absent |
| FixDatabase.EnsureCategoryNamesKeeps | fix_database.py:105-117 | earlier categories are unchanged and the count is the rows added |
| FixDatabase.EnsureCategoryNamesCreates | fix_database.py:111-112 | created categories are listed names with nothing budgeted or spent |
| FixDatabase.EnsureCategoryNamesPresent | fix_database.py:105-117 | afterwards every listed name exists |
| FixDatabase.AddConfiguredAccounts | fix_database.py:88-100 | the loop's result is the account insert-if-absent pass with its count |
| FixDatabase.AddConfiguredCategories | fix_database.py:105-117 | the loop's result is the category insert-if-absent pass with its count |
| FixDatabase.FixDatabase | fix_database.py:49-150 | missing settings change nothing; a placeholder account that a purchase names makes the DELETE fail and nothing changes; a rename that would duplicate a name rolls back; otherwise placeholders are deleted, names renamed, configured accounts and categories added, with the counts |
| FixDatabase.FixDatabaseOutcome | fix_database.py:63-100 | afterwards every configured account exists, nothing needs renaming, and surviving accounts keep their balances |
| Cleanup.DeletePasses | database_cleanup_script.py:47-114 | the four passes in order; orphans are computed after the account pass and deleted only on confirmation; each count is the rows the pass removed |
| Cleanup.CleanupDatabase | database_cleanup_script.py:37-186 | the run succeeds iff no purchase names a bad account, an unwanted category or an empty category, and no kept account or category has a blank name while its name check is still to be added; a refused DELETE rolls everything back with the foreign-key error, a refused `ADD CONSTRAINT` with the aborted-transaction error; on success the result is that of the four passes and every kept name passes the checks that were added |
| Cleanup.SpacesNameAborts | database_cleanup_script.py:47-52 | an account named only with spaces is not generic, so the account pass keeps it and the account check cannot be added |
| Cleanup.AccountsKept | database_cleanup_script.py:47-52 | an account with money in it or a non-generic name is never deleted |
| Cleanup.OwnerGuardRedundant | database_cleanup_script.py:59-76 | no default name starts with "Peanut -" or "Robert -", so every listed default is deleted |
| Cleanup.OwnedCategoriesSurvive | database_cleanup_script.py:69-89 | a "owner - category" name survives steps 2 and 3 |
| Cleanup.AccountPassCreatesNoOrphans | database_cleanup_script.py:47-103 | a successful account pass deletes no account a purchase names, so the orphans are those that existed before, and none on a table that keeps the foreign key |
| Cleanup.ConfirmedCleanupLeavesNoOrphans | database_cleanup_script.py:108-114 | after a confirmed delete every purchase's account exists, and non-orphans are untouched |
| PeriodAssign.LastActiveSpec | fix_period_assignments.py:55-60 | the walk returns an active period after which none is active, and None iff none is active |
| PeriodAssign.ActivePickIsLatest | fix_period_assignments.py:47-60 | in start order the reported period is active and starts no earlier than any active period; None iff no period is active |
| PeriodAssign.SingleActivePicked | fix_period_assignments.py:55-60 | with one active period the walk reports it |
| PeriodAssign.FindActivePeriod | fix_period_assignments.py:55-60 | the loop's result is the last active period in start order |
| PeriodAssign.AssignKeepsKeysUniqueIff | database_migration_12_months.py:232-239 | on a table that keeps UNIQUE (name, period_id), filing the NULL-period categories under a period keeps it iff no NULL-period category shares its name with another NULL-period category or with a category of that period |
| PeriodAssign.FixPeriodAssignments | fix_period_assignments.py:94-137 | for an active id taken from the period table: without an active period nothing changes and there is no count; when filing the NULL-period categories would repeat a (name, period) pair, the UNIQUE constraint refuses the UPDATE and nothing changes; otherwise they get the active period, the count is how many there were, and the constraint still holds |
| Preview.NextMonthInfoSpec | preview_budget_enhanced.py:38-53 | the name is next month's "%B %Y" whatever today's day; the start is the 24th of this month; the end is the last day of next month and after the start |
| Preview.EntryTotals | preview_budget_enhanced.py:88-100 | one category adds its amount or its sub-amounts and counts one per leaf |
| Preview.OwnerTotals | preview_budget_enhanced.py:84-102 | an owner's subtotal is the sum of their leaves |
| Preview.PreviewBudget | preview_budget_enhanced.py:78-106 | one subtotal per owner; the total is the sum of subtotals and of all leaf amounts; the count is one per plain category and nested sub-category |
| Preview.PreviewIncome | preview_budget_enhanced.py:111-122 | the total income sums only salaries above zero |
| Preview.PositiveSalaryTotalBounds | preview_budget_enhanced.py:116-120 | the income total is never negative and is at least every positive salary |
| Desktop.LocalDb.UpdateLocalDb | desktop_budget.py:442-458 | with distinct ids the table holds exactly the server's rows, no leftovers; a repeated id leaves the old table |
| Desktop.FilterSpec | desktop_budget.py:516-523 | "All" lists every row; any other choice lists exactly the rows of that category, in their original order |
| Desktop.MatchingSpec | desktop_budget.py:523 | the comprehension keeps exactly the matching rows, in order |
| Desktop.Stored | desktop_budget.py:447-457 | the sync's INSERT leaves account_id, budget_category_id and account_name NULL, and the row read back by column name is the row written |
| Desktop.ReadBackAsWritten | desktop_budget.py:460-503 | read by position from `SELECT *`, a synced row has no category and no description and is dated by its description; without a description the read raises |
| Desktop.ReadAllAsWritten | desktop_budget.py:460-464 | the list as written has one row per synced row, each the positional read of it |
| Desktop.PositionalReadMislabels | desktop_budget.py:488-532 | as written, every purchase is labelled "Other" and dated by its description, and every filter choice but "All" lists nothing |
| Desktop.PositionalReadExample | desktop_budget.py:476-491 | a described August purchase counts as "Other" and outside August as written, and under its category and in August when read by name |
| Desktop.Tally | desktop_budget.py:488-491 | one entry per key that occurs, with that key's total; the entries sum to the overall total |
| Desktop.MaxKeySpec | desktop_budget.py:493-494 | `max` returns a key of largest total, the first such in dictionary order |
| Desktop.UpdateOverview | desktop_budget.py:470-503 | nothing without purchases; otherwise the month total, the day count, a top category ("Other" for none) of maximal total, and the first ten rows |
| Desktop.GenerateAnalysis | desktop_budget.py:562-600 | nothing without purchases; otherwise count, total, and per-category and per-user totals that each add up to the total |
| Desktop.MonthTotalIsTally | desktop_budget.py:476-477 | the month total equals the tally of the 7-character month prefix |
| Desktop.KeyTotalPermutation | desktop_budget.py:462-463 | every tally is independent of the order the rows were returned in |
| Desktop.DaysBounds | desktop_budget.py:480-483 | with purchases there is at least one day and never more days than purchases |
| Desktop.KeysBounds | desktop_budget.py:482-494 | every key that occurs is collected, and there are no more keys than rows |
| Desktop.RecentSpec | desktop_budget.py:497-499 | the recent table shows min(10, n) rows, the first ones, none older than a row left out |
| Dates.AddMonths | database_migration_12_months.py:79 | `relativedelta(months=n)` moves n calendar months and clamps the day to the month's length |
| Dates.PrevDay | database_migration_12_months.py:80 | one day back stays valid and crosses into the previous month only from day 1 |
| Dates.NextDayOfPrevDay | database_migration_12_months.py:79-80 | a day back then forward returns to the same date |
| Dates.MonthYearNameInjective | database_migration_12_months.py:83 | the "%B %Y" name determines the month and year |
| Common.ReplaceAllWithoutOccurrence | fix_database.py:77 | REPLACE leaves a string without the pattern unchanged |
| Common.ReplaceAllIntroduces | fix_database.py:77 | REPLACE on a string holding the pattern yields a string holding the replacement |
| Template.LeavesCount | preview_budget_enhanced.py:88-100 | the template has one leaf per plain category and one per nested sub-category |
| Template.LeafNames | final_fix_august.py:213-236 | every leaf is named "owner - category" or "owner - category - sub" |
| Template.TotalAppend | preview_budget_enhanced.py:103 | the total of two lists of leaves is the sum of their totals |

## Left out

- HTTP routing, JSON parsing, CORS, the manifest and service worker, `ensure_database`,
  database connections, `.env` loading and reading the settings file: these are I/O. The
  settings are passed in as values.
- DDL: table creation, adding the `period_id` column and the plpgsql
  `get_current_period`. Constraint drops and adds appear only where they can fail: step 6
  of `Migration.RunMigration` and step 5 of `Cleanup.CleanupDatabase`. The `(name, period_id)` uniqueness is the predicate
  `Ledger.CategoryKeysUnique`. Only the writes that give a category a period check it:
  `FinalFix.InsertLeaf` and `PeriodAssign.FixPeriodAssignments` refuse a write that
  breaks it. The other scripts insert categories with a NULL period, and the constraint
  never compares NULLs.
- The foreign keys are modelled only where a write in the model could break them. The
  keys are `purchases.account_id` and `purchases.budget_category_id` (app.py:66-67) and
  `budget_categories.period_id` (database_migration_12_months.py:183). The writes that
  check them are:
  - `App.SyncPurchases` and `App.AddIncome`, for an unknown account id;
  - `FixDatabase.FixDatabase`, for the placeholder delete;
  - `Cleanup.CleanupDatabase`, for the account and category deletes;
  - `Migration.RunMigration` and `Migration.RunMigrationGuarded`, for the recreate
    delete of the periods.
  Each refusal leaves the store unchanged, as the source's rollback does. The other
  deletes unlink or repoint the purchases first, and the other inserts use ids they have
  just looked up. The store does not carry referential integrity as an invariant, since
  the clean-up script's orphan pass expects a database that may lack it.
  `transfers` and its keys are not part of this model.
- FinalFix.PopulateBudgetCategories: models the intended run, in which a refused INSERT
  skips its row and the later inserts go on. In the source, PostgreSQL aborts the
  transaction at the first refused INSERT. Every later INSERT is then rejected too, and
  the final COMMIT stores nothing while `categories_created` still counts the rows
  inserted before the refusal. `FinalFix.PopulateAsWritten` models that behaviour (see
  "## Findings").
- Sequence values consumed by inserts that are later rolled back are not given back in
  the source either; the model restores the whole table, counter included.
- The commented-out transfer and category endpoints: that code is disabled.
- Qt widgets, timers, dialogs, charts and CSV export of the desktop client, and its
  averages, percentages, the 7-day window and the report lines' sort by amount: these are
  UI, floating point or the wall clock.
- The installer, HTTP trigger scripts, stubs, the connectivity test and the read-only
  diagnostic script.
- Desktop.LoadData: the `ORDER BY date DESC` query result is a parameter; the model does
  not sort the rows itself.
- PeriodAssign.FindActivePeriod: the `ORDER BY start_date` query result is a parameter.
- Preview.NextMonthInfoSpec: requires a year of at least 1, as Python's `date` does.
- App.SyncPurchases: a batch element without an amount or a timestamp raises in the
  source and rolls the batch back; the model takes every element as well formed.
- App.Recorded: a JSON `null` is modelled like an absent key. In the source, a `null`
  `user_name` is not replaced by "Unknown" and the NOT NULL column refuses the row.
  A `null` description is stored as `None` (app.py:60, 149-150).
- App.AddIncome: a JSON `null` username or description is modelled like an absent key.
  In the source it is formatted as "None" into "Income: … (received by …)", and a `null`
  username violates NOT NULL (app.py:60, 498-512).
- Populate.PopulateAugustBudget: this script writes to a local SQLite `budget.db`
  (populate_august_budget.py:30). There a new row gets the largest id plus one, not the
  next value of a counter. The model still draws ids from `Table.nextId`, which gives the
  same id unless rows at the top were deleted before.
- UpdateBudget.UpdateEntry: template amounts are whole cents. With a float of more than
  two decimals the source's comparison with the stored `DECIMAL(10,2)` value would never
  be equal and would count the entry on every run.
- FixDatabase.FixDatabase: assumes `budget_categories.name` is still UNIQUE, as
  `init_db` declares it, so that `ON CONFLICT (name)` applies. After the migration has
  dropped that constraint, the source's category insert would raise instead.
- FixCategories.FixDuplicates: the groups are merged in an arbitrary order, not by
  name. The result does not depend on the order.
- Desktop.Row: the figures are modelled over the columns read by name, the evidently
  intended reading. As written, `SELECT *` puts account_id, budget_category_id and the
  description where the client reads the category, the description and the date, so
  every purchase is shown as "Other", only "All" lists anything, and a purchase without
  a description makes the overview raise (`Desktop.ReadBackAsWritten`, see
  "## Findings").
- FinalFix.DepositSalaries: every deposit row gets the one `date` parameter, where the
  source calls `datetime.now()` for each INSERT and commits after each deposit
  (final_fix_august.py:318-323).
- Migration.RunMigration: the model reads the schema's state off the period table. Only
  a committed run of this script fills that table, and each committed run has dropped
  `budget_categories_name_key` and added the `(name, period_id)` constraint.

## Findings

| source | as written | input that shows it | evidently intended | confidence | as-written member | corrected member |
|---|---|---|---|---|---|---|
| final_fix_august.py:213-257 | each INSERT sits in its own `try`/`except` without a SAVEPOINT, so once one INSERT is refused PostgreSQL aborts the transaction; the later INSERTs fail too and the COMMIT stores nothing, yet the count of created categories is still reported | the period already has "Robert - Fuel" and the template lists "Robert - Food", "Robert - Fuel": one category is reported created and none is stored | skip the refused row and keep the others, reporting the rows stored | not executed | FinalFix.PopulateAsWrittenLosesRows | FinalFix.InsertLeavesSpec |
| database_migration_12_months.py:223-241 | step 6 drops `budget_categories_name_key` inside the transaction without a savepoint; on a confirmed recreate an earlier committed run has already dropped it, so the DROP fails, the bare `except` hides the error, step 7 meets an aborted transaction and the whole run is rolled back | one period "August 2025", no category filed under it, the operator answers "y": the run ends with an error and nothing changes | a confirmed recreate replaces the periods (drop the old constraint only if it exists, add the pair constraint only if it does not) | not executed | Migration.RunMigration | Migration.RunMigrationGuarded |
| desktop_budget.py:460-532 | `SELECT *` returns the declared column order (id, user, amount, account_id, budget_category_id, description, date, …), but the client reads `p[3]` as the category, `p[4]` as the description and `p[5]` as the date | a synced purchase of 12.50 in "Robert - Food" described "lunch" on 2025-08-14: shown as "Other", dated "lunch", left out of the August total, and listed under no filter choice but "All" | read the six columns by name | not executed | Desktop.PositionalReadMislabels | Desktop.Stored |
