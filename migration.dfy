/** The 12-month migration: twelve budget periods running from the 25th of one month to the
    24th of the next, the first of them active, then the row transforms applied to the
    existing data (NULL periods assigned to the active period, transfer purchases purged). */
module Migration {
  import opened Common
  import opened Dates
  import opened Ledger

  /** Start of the period containing `today`: the 25th of this month from the 25th on,
      the 25th of the previous month before it. */
  function FirstPeriodStart(today: Date): (s: Date)
    requires ValidDate(today)
    ensures ValidDate(s) && s.day == 25
    ensures today.day >= 25 ==> MonthIndex(s) == MonthIndex(today)
    ensures today.day < 25 ==> MonthIndex(s) == MonthIndex(today) - 1
  {
    if today.day >= 25 then today.(day := 25)
    else
      var prev := AddMonths(today, -1);
      prev.(day := 25)
  }

  /** Period `i` counted from `first`: it starts `i` months later, ends one month after its
      start less one day, is named after the month and year of its end and is active when
      it contains `today`. */
  function PeriodAt(first: Date, i: nat, today: Date): Period
    requires ValidDate(first) && first.day == 25 && MonthIndex(first) >= 0
  {
    var start := AddMonths(first, i);
    var end := PrevDay(AddMonths(start, 1));
    Period(MonthYearName(end), start, end, DateLe(start, today) && DateLe(today, end))
  }

  /** The first `n` periods counted from `first`, in order. */
  function PeriodsUpTo(first: Date, n: nat, today: Date): (ps: seq<Period>)
    requires ValidDate(first) && first.day == 25 && MonthIndex(first) >= 0
    ensures |ps| == n && forall i :: 0 <= i < n ==> ps[i] == PeriodAt(first, i, today)
  {
    if n == 0 then [] else PeriodsUpTo(first, n - 1, today) + [PeriodAt(first, n - 1, today)]
  }

  /** The twelve periods the migration inserts. */
  function BudgetPeriods(today: Date): (ps: seq<Period>)
    requires ValidDate(today) && today.year >= 1
    ensures |ps| == 12 && forall i :: 0 <= i < 12 ==> ps[i] == PeriodAt(FirstPeriodStart(today), i, today)
  {
    PeriodsUpTo(FirstPeriodStart(today), 12, today)
  }

  /** Every period starts on the 25th of month `first + i` and ends on the 24th of the
      month after. */
  lemma {:induction false} PeriodAtShape(first: Date, i: nat, today: Date)
    requires ValidDate(first) && first.day == 25 && MonthIndex(first) >= 0
    ensures var p := PeriodAt(first, i, today);
            ValidDate(p.start) && p.start.day == 25 && MonthIndex(p.start) == MonthIndex(first) + i &&
            ValidDate(p.end) && p.end.day == 24 && MonthIndex(p.end) == MonthIndex(first) + i + 1
  {
    var start := AddMonths(first, i);
    var next := AddMonths(start, 1);
    assert start.day == 25 && next.day == 25;
  }

  /** Period `i + 1` starts the day after period `i` ends: no gap and no overlap. */
  lemma {:induction false} PeriodsContiguous(first: Date, i: nat, today: Date)
    requires ValidDate(first) && first.day == 25 && MonthIndex(first) >= 0
    ensures NextDay(PeriodAt(first, i, today).end) == PeriodAt(first, i + 1, today).start
  {
    PeriodAtShape(first, i, today);
    PeriodAtShape(first, i + 1, today);
    var n := NextDay(PeriodAt(first, i, today).end);
    var s := PeriodAt(first, i + 1, today).start;
    assert n.day == 25 && MonthIndex(n) == MonthIndex(s);
    SameMonthIndex(n, s);
  }

  /** Different periods get different names, as the UNIQUE `period_name` column needs. */
  lemma {:induction false} PeriodNamesDistinct(first: Date, i: nat, j: nat, today: Date)
    requires ValidDate(first) && first.day == 25 && MonthIndex(first) >= 0
    requires i != j
    ensures PeriodAt(first, i, today).name != PeriodAt(first, j, today).name
  {
    PeriodAtShape(first, i, today);
    PeriodAtShape(first, j, today);
    var a, b := PeriodAt(first, i, today).end, PeriodAt(first, j, today).end;
    if MonthYearName(a) == MonthYearName(b) {
      MonthYearNameInjective(a, b);
      assert false;
    }
  }

  /** Counted from the period containing `today`, period `i` is active exactly when `i`
      is 0. */
  lemma {:induction false} OnlyFirstActive(today: Date, i: nat)
    requires ValidDate(today) && today.year >= 1
    ensures PeriodAt(FirstPeriodStart(today), i, today).active <==> i == 0
  {
    var first := FirstPeriodStart(today);
    PeriodAtShape(first, i, today);
    var p := PeriodAt(first, i, today);
    DateLeByIndex(p.start, today);
    DateLeByIndex(today, p.end);
  }

  /** The first of the twelve periods starts at the start of the period containing `today`;
      each runs from the 25th to the 24th of the next month, is active exactly when it
      contains `today`, and only the first is active. */
  lemma {:induction false} BudgetPeriodsShape(today: Date)
    requires ValidDate(today) && today.year >= 1
    ensures var ps := BudgetPeriods(today);
            ps[0].start == FirstPeriodStart(today) &&
            forall i :: 0 <= i < 12 ==>
              ValidDate(ps[i].start) && ps[i].start.day == 25 && ValidDate(ps[i].end) && ps[i].end.day == 24 &&
              MonthIndex(ps[i].end) == MonthIndex(ps[i].start) + 1 &&
              (ps[i].active <==> DateLe(ps[i].start, today) && DateLe(today, ps[i].end)) &&
              (ps[i].active <==> i == 0)
  {
    var ps := BudgetPeriods(today);
    var first := FirstPeriodStart(today);
    assert ps[0] == PeriodAt(first, 0, today);
    PeriodAtShape(first, 0, today);
    SameMonthIndex(ps[0].start, first);
    forall i | 0 <= i < 12
      ensures ValidDate(ps[i].start) && ps[i].start.day == 25 && ValidDate(ps[i].end) && ps[i].end.day == 24
      ensures MonthIndex(ps[i].end) == MonthIndex(ps[i].start) + 1
      ensures ps[i].active <==> DateLe(ps[i].start, today) && DateLe(today, ps[i].end)
      ensures ps[i].active <==> i == 0
    {
      BudgetPeriodShape(today, i);
    }
  }

  lemma {:induction false} BudgetPeriodShape(today: Date, i: nat)
    requires ValidDate(today) && today.year >= 1 && i < 12
    ensures var p := BudgetPeriods(today)[i];
            ValidDate(p.start) && p.start.day == 25 && ValidDate(p.end) && p.end.day == 24 &&
            MonthIndex(p.end) == MonthIndex(p.start) + 1 &&
            (p.active <==> DateLe(p.start, today) && DateLe(today, p.end)) &&
            (p.active <==> i == 0)
  {
    var first := FirstPeriodStart(today);
    assert BudgetPeriods(today)[i] == PeriodAt(first, i, today);
    PeriodAtShape(first, i, today);
    OnlyFirstActive(today, i);
  }

  /** The twelve periods leave no gap: each starts the day after the previous one ends. */
  lemma {:induction false} BudgetPeriodsContiguous(today: Date)
    requires ValidDate(today) && today.year >= 1
    ensures var ps := BudgetPeriods(today);
            forall i :: 0 <= i < 11 ==> NextDay(ps[i].end) == ps[i + 1].start
  {
    var ps := BudgetPeriods(today);
    var first := FirstPeriodStart(today);
    forall i | 0 <= i < 11
      ensures NextDay(ps[i].end) == ps[i + 1].start
    {
      assert ps[i] == PeriodAt(first, i, today) && ps[i + 1] == PeriodAt(first, i + 1, today);
      PeriodsContiguous(first, i, today);
    }
  }

  /** The twelve periods have twelve different names. */
  lemma {:induction false} BudgetPeriodsNamesDistinct(today: Date)
    requires ValidDate(today) && today.year >= 1
    ensures var ps := BudgetPeriods(today);
            forall i, j :: 0 <= i < 12 && 0 <= j < 12 && i != j ==> ps[i].name != ps[j].name
  {
    var ps := BudgetPeriods(today);
    var first := FirstPeriodStart(today);
    forall i, j | 0 <= i < 12 && 0 <= j < 12 && i != j
      ensures ps[i].name != ps[j].name
    {
      assert ps[i] == PeriodAt(first, i, today) && ps[j] == PeriodAt(first, j, today);
      PeriodNamesDistinct(first, i, j, today);
    }
  }

  /** `generate_budget_periods`: the loop builds period `i` from the start `i` months after
      the first, so the list is the twelve periods above, with all their properties. */
  method GenerateBudgetPeriods(today: Date) returns (ps: seq<Period>)
    requires ValidDate(today) && today.year >= 1
    ensures ps == BudgetPeriods(today)
  {
    var first := FirstPeriodStart(today);
    ps := [];
    var i := 0;
    while i < 12
      invariant 0 <= i <= 12 && ps == PeriodsUpTo(first, i, today)
    {
      var start := AddMonths(first, i);
      var end := PrevDay(AddMonths(start, 1));
      PeriodAtShape(first, i, today);
      ps := ps + [Period(MonthYearName(end), start, end, DateLe(start, today) && DateLe(today, end))];
      i := i + 1;
    }
  }

  /** Inserted into an emptied table, the twelve periods have unique names and only the
      first of them, the one with the table's next id, is active. */
  lemma {:induction false} InsertedPeriods(t: Table<Period>, today: Date)
    requires t.Valid() && t.rows == map[] && ValidDate(today) && today.year >= 1
    ensures var r := t.InsertAll(BudgetPeriods(today));
            PeriodNamesUnique(r.rows) && ActivePeriodIds(r.rows) == {t.nextId} &&
            r.rows[t.nextId] == BudgetPeriods(today)[0]
  {
    var ps := BudgetPeriods(today);
    var first := FirstPeriodStart(today);
    var r := t.InsertAll(ps);
    InsertAllRows(t, ps);
    forall i, j | i in r.rows && j in r.rows && r.rows[i].name == r.rows[j].name
      ensures i == j
    {
      if i != j {
        PeriodNamesDistinct(first, i - t.nextId, j - t.nextId, today);
      }
    }
    forall k | k in r.rows
      ensures r.rows[k].active <==> k == t.nextId
    {
      OnlyFirstActive(today, k - t.nextId);
    }
    assert ActivePeriodIds(r.rows) == {t.nextId};
  }

  /** A purchase the migration treats as a transfer: its description starts with
      "Transfer:" or its user is "Transfer". */
  predicate IsTransfer(p: Purchase) {
    StartsWith(p.description, "Transfer:") || p.user == "Transfer"
  }

  function TransferIds(rows: map<int, Purchase>): set<int> {
    set k | k in rows && IsTransfer(rows[k])
  }

  /** Income rows written by /add_income survive the purge unless their user is
      "Transfer". */
  lemma {:induction false} IncomeIsNotTransfer(p: Purchase)
    requires StartsWith(p.description, "Income: ") && p.user != "Transfer"
    ensures !IsTransfer(p)
  {
    assert p.description[0] == 'I';
  }

  /** Step 3 of `run_migration`: one INSERT per generated period, in order. */
  method InsertPeriods(db: Store, periods: seq<Period>)
    requires db.periods.Valid()
    modifies db
    ensures db.periods == old(db.periods).InsertAll(periods)
    ensures db.accounts == old(db.accounts) && db.categories == old(db.categories) && db.purchases == old(db.purchases)
  {
    var i := 0;
    while i < |periods|
      invariant 0 <= i <= |periods|
      invariant db.periods == old(db.periods).InsertAll(periods[..i])
      invariant db.accounts == old(db.accounts) && db.categories == old(db.categories) && db.purchases == old(db.purchases)
    {
      assert periods[..i + 1][..i] == periods[..i];
      db.periods := db.periods.Insert(periods[i]);
      i := i + 1;
    }
    assert periods[..i] == periods;
  }

  /** Step 8 of `run_migration`: select the transfer purchases, then delete them one id at a
      time; the result is the number of rows selected. */
  method PurgeTransfers(db: Store) returns (found: nat)
    modifies db
    ensures db.purchases == old(db.purchases).(rows := old(db.purchases.rows) - TransferIds(old(db.purchases.rows)))
    ensures found == |TransferIds(old(db.purchases.rows))|
    ensures db.accounts == old(db.accounts) && db.categories == old(db.categories) && db.periods == old(db.periods)
  {
    var transfers := TransferIds(db.purchases.rows);
    found := |transfers|;
    var pending := transfers;
    while pending != {}
      invariant pending <= transfers
      invariant db.purchases == old(db.purchases).(rows := old(db.purchases.rows) - (transfers - pending))
      invariant db.accounts == old(db.accounts) && db.categories == old(db.categories) && db.periods == old(db.periods)
      decreases |pending|
    {
      NonEmptyHasElement(pending);
      var id :| id in pending;
      assert old(db.purchases.rows) - (transfers - (pending - {id})) == (old(db.purchases.rows) - (transfers - pending)) - {id};
      db.purchases := db.purchases.(rows := db.purchases.rows - {id});
      pending := pending - {id};
    }
    assert transfers - pending == transfers;
  }

  /** Steps 3 to 8 of `run_migration` on an emptied period table: insert the twelve new
      periods, give every category without a period the active one, which is the first new
      period, and delete every transfer purchase. */
  method Migrate(db: Store, today: Date)
    requires db.Valid() && db.periods.rows == map[] && ValidDate(today) && today.year >= 1
    modifies db
    ensures db.Valid()
    ensures db.periods == old(db.periods).InsertAll(BudgetPeriods(today))
    ensures ActivePeriodIds(db.periods.rows) == {old(db.periods.nextId)}
    ensures db.categories == old(db.categories).(rows := AssignNullPeriod(old(db.categories.rows), old(db.periods.nextId)))
    ensures db.purchases == old(db.purchases).(rows := old(db.purchases.rows) - TransferIds(old(db.purchases.rows)))
    ensures db.accounts == old(db.accounts)
  {
    var periods := GenerateBudgetPeriods(today);
    InsertPeriods(db, periods);
    InsertedPeriods(old(db.periods), today);
    var current := LowestKey(ActivePeriodIds(db.periods.rows));
    if current.Some? {
      db.categories := db.categories.(rows := AssignNullPeriod(db.categories.rows, current.value));
    }
    var _ := PurgeTransfers(db);
  }

  /** The run may replace the period table: it is empty, or the operator confirmed and no
      category is filed under one of the old periods, so the foreign key lets the DELETE
      through. */
  predicate RecreateAllowed(periods: map<int, Period>, categories: map<int, Category>, recreate: bool) {
    |periods| == 0 || (recreate && !PeriodsReferenced(categories, periods.Keys))
  }

  /** The migration's end state: the old periods replaced by the twelve new ones with the
      first active, every category without a period filed under that first one, the
      transfers purged and the accounts as they were. */
  predicate Migrated(before: (Table<Account>, Table<Category>, Table<Purchase>, Table<Period>),
                     after: (Table<Account>, Table<Category>, Table<Purchase>, Table<Period>), today: Date)
    requires before.3.Valid() && ValidDate(today) && today.year >= 1
  {
    var (accounts, categories, purchases, periods) := before;
    after.3 == periods.(rows := map[]).InsertAll(BudgetPeriods(today)) &&
    ActivePeriodIds(after.3.rows) == {periods.nextId} &&
    after.1 == categories.(rows := AssignNullPeriod(categories.rows, periods.nextId)) &&
    after.2 == purchases.(rows := purchases.rows - TransferIds(purchases.rows)) &&
    after.0 == accounts
  }

  /** `run_migration` as written. The whole run is one transaction without savepoints.
      With periods present and no confirmation it rolls back. A confirmed recreate first
      deletes the periods, which the foreign key refuses while a category is filed under one
      of them. Otherwise step 6 drops `budget_categories_name_key`; the period table is only
      ever filled by a committed run of this script, which dropped that constraint, so on a
      recreate the DROP fails. Its bare `except` hides the error but not the aborted
      transaction, so step 7 raises and everything is rolled back. On a first run the DROP
      succeeds, and the `UNIQUE (name, period_id)` constraint is refused when two
      categories end up with the same name in the active period, with the same effect. */
  method RunMigration(db: Store, today: Date, recreate: bool) returns (r: Result<()>)
    requires db.Valid() && ValidDate(today) && today.year >= 1
    modifies db
    ensures db.Valid()
    ensures r.Ok? <==> |old(db.periods.rows)| == 0 &&
                       CategoryKeysUnique(AssignNullPeriod(old(db.categories.rows), old(db.periods.nextId)))
    ensures r.Err? ==> unchanged(db)
    ensures |old(db.periods.rows)| > 0 && !recreate ==> r == Err("Migration cancelled")
    ensures |old(db.periods.rows)| > 0 && recreate && PeriodsReferenced(old(db.categories.rows), old(db.periods.rows.Keys)) ==>
              r == Err(PeriodInUse)
    ensures |old(db.periods.rows)| > 0 && recreate && !PeriodsReferenced(old(db.categories.rows), old(db.periods.rows.Keys)) ==>
              r == Err(TransactionAborted)
    ensures |old(db.periods.rows)| == 0 && !CategoryKeysUnique(AssignNullPeriod(old(db.categories.rows), old(db.periods.nextId))) ==>
              r == Err(TransactionAborted)
    ensures r.Ok? ==> Migrated((old(db.accounts), old(db.categories), old(db.purchases), old(db.periods)),
                               (db.accounts, db.categories, db.purchases, db.periods), today)
  {
    if |db.periods.rows| > 0 {
      if !recreate {
        return Err("Migration cancelled");
      }
      if PeriodsReferenced(db.categories.rows, db.periods.rows.Keys) {
        return Err(PeriodInUse);
      }
      return Err(TransactionAborted);
    }
    if !CategoryKeysUnique(AssignNullPeriod(db.categories.rows, db.periods.nextId)) {
      return Err(TransactionAborted);
    }
    Migrate(db, today);
    return Ok(());
  }

  /** `run_migration` as evidently intended: step 6 drops the old constraint only if it is
      still there and adds the `(name, period_id)` one only if it is not, so a confirmed
      recreate goes through whenever the foreign key lets the old periods go and the
      assignment leaves no name twice in the active period. */
  method RunMigrationGuarded(db: Store, today: Date, recreate: bool) returns (r: Result<()>)
    requires db.Valid() && ValidDate(today) && today.year >= 1
    modifies db
    ensures db.Valid()
    ensures r.Ok? <==> RecreateAllowed(old(db.periods.rows), old(db.categories.rows), recreate) &&
                       CategoryKeysUnique(AssignNullPeriod(old(db.categories.rows), old(db.periods.nextId)))
    ensures r.Err? ==> unchanged(db)
    ensures |old(db.periods.rows)| > 0 && !recreate ==> r == Err("Migration cancelled")
    ensures |old(db.periods.rows)| > 0 && recreate && PeriodsReferenced(old(db.categories.rows), old(db.periods.rows.Keys)) ==>
              r == Err(PeriodInUse)
    ensures RecreateAllowed(old(db.periods.rows), old(db.categories.rows), recreate) &&
            !CategoryKeysUnique(AssignNullPeriod(old(db.categories.rows), old(db.periods.nextId))) ==>
              r == Err(DuplicateCategoryKey)
    ensures r.Ok? ==> Migrated((old(db.accounts), old(db.categories), old(db.purchases), old(db.periods)),
                               (db.accounts, db.categories, db.purchases, db.periods), today)
  {
    if |db.periods.rows| > 0 {
      if !recreate {
        return Err("Migration cancelled");
      }
      if PeriodsReferenced(db.categories.rows, db.periods.rows.Keys) {
        return Err(PeriodInUse);
      }
    }
    if !CategoryKeysUnique(AssignNullPeriod(db.categories.rows, db.periods.nextId)) {
      return Err(DuplicateCategoryKey);
    }
    db.periods := db.periods.(rows := map[]);
    Migrate(db, today);
    return Ok(());
  }

  /** A store the intended run migrates and the written run refuses: one period already
      there, no category filed under it, and a confirmed recreate. */
  lemma RecreateRefusedAsWritten()
    ensures var periods := map[1 := Period("August 2025", Date(2025, 7, 25), Date(2025, 8, 24), true)];
            var categories: map<int, Category> := map[1 := Category("Robert - Food", 40000, 0, None)];
            |periods| > 0 && RecreateAllowed(periods, categories, true) &&
            CategoryKeysUnique(AssignNullPeriod(categories, 2))
  {
    var categories: map<int, Category> := map[1 := Category("Robert - Food", 40000, 0, None)];
    assert !PeriodsReferenced(categories, {1});
    assert AssignNullPeriod(categories, 2) == map[1 := Category("Robert - Food", 40000, 0, Some(2))];
  }

  /** The purge deletes exactly the transfer purchases and leaves every other row as it was. */
  lemma {:induction false} PurgeDeletesOnlyTransfers(rows: map<int, Purchase>)
    ensures var kept := rows - TransferIds(rows);
            (forall k :: k in kept <==> k in rows && !IsTransfer(rows[k])) &&
            (forall k :: k in kept ==> kept[k] == rows[k])
  {
  }

  /** Assigning NULL periods gives every category a period and touches no category that
      already had one; applying it twice changes nothing more. */
  lemma {:induction false} AssignNullPeriodSettles(rows: map<int, Category>, pid: int)
    ensures NullPeriodCategories(AssignNullPeriod(rows, pid)) == {}
    ensures AssignNullPeriod(AssignNullPeriod(rows, pid), pid) == AssignNullPeriod(rows, pid)
  {
    var once := AssignNullPeriod(rows, pid);
    assert forall k :: k !in NullPeriodCategories(once);
  }
}
