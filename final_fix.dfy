/** The August 2025 repair: switch the active period, clear that period's categories,
    repopulate them from the template and deposit the monthly salaries. */
module FinalFix {
  import opened Common
  import opened Template
  import opened Ledger
  import opened App

  const August: string := "August 2025"

  /** Both UPDATEs of the switch: every period inactive, then those named `name` active. */
  function ActivateNamed(rows: map<int, Period>, name: string): (r: map<int, Period>)
    ensures r.Keys == rows.Keys
    ensures forall k :: k in r ==> (r[k].active <==> rows[k].name == name)
    ensures forall k :: k in r ==> r[k].name == rows[k].name && r[k].start == rows[k].start && r[k].end == rows[k].end
  {
    map k | k in rows :: rows[k].(active := rows[k].name == name)
  }

  /** Period lookup by name sees only names, so the switch does not change it. */
  lemma {:induction false} FindPeriodSameNames(a: map<int, Period>, b: map<int, Period>, name: string)
    requires a.Keys == b.Keys && forall k :: k in a ==> a[k].name == b[k].name
    ensures FindPeriod(a, name) == FindPeriod(b, name)
  {
    assert forall k :: k in PeriodsNamed(a, name) <==> k in PeriodsNamed(b, name);
    assert PeriodsNamed(a, name) == PeriodsNamed(b, name);
  }

  /** `switch_to_august_period`: when a period named "August 2025" exists it becomes the only
      active period and its id is returned; otherwise nothing is committed and the result
      is None. */
  method SwitchToAugustPeriod(db: Store) returns (r: Option<int>)
    requires db.Valid()
    modifies db
    ensures db.Valid()
    ensures r == FindPeriod(old(db.periods.rows), August)
    ensures r.None? ==> unchanged(db)
    ensures r.Some? ==>
              db.periods == old(db.periods).(rows := ActivateNamed(old(db.periods.rows), August)) &&
              db.accounts == old(db.accounts) && db.categories == old(db.categories) && db.purchases == old(db.purchases)
  {
    var before := db.periods;
    db.periods := db.periods.(rows := ActivateNamed(db.periods.rows, August));
    FindPeriodSameNames(db.periods.rows, before.rows, August);
    var found := FindPeriod(db.periods.rows, August);
    if found.None? {
      db.periods := before;
    }
    return found;
  }

  /** With unique period names, a successful switch leaves exactly the returned period
      active. */
  lemma {:induction false} SwitchActivatesOne(rows: map<int, Period>)
    requires PeriodNamesUnique(rows) && FindPeriod(rows, August).Some?
    ensures ActivePeriodIds(ActivateNamed(rows, August)) == {FindPeriod(rows, August).value}
  {
    var id := FindPeriod(rows, August).value;
    var r := ActivateNamed(rows, August);
    assert forall k :: k in r && r[k].active ==> k == id;
    assert id in ActivePeriodIds(r);
  }

  function PeriodCategoryIds(rows: map<int, Category>, pid: int): set<int> {
    set k | k in rows && rows[k].period == Some(pid)
  }

  /** `UPDATE purchases SET budget_category_id = NULL WHERE budget_category_id IN ids`. */
  function UnlinkCategories(rows: map<int, Purchase>, ids: set<int>): (r: map<int, Purchase>)
    ensures r.Keys == rows.Keys
    ensures forall k :: k in r ==>
              r[k] == (if rows[k].category.Some? && rows[k].category.value in ids then rows[k].(category := None) else rows[k])
  {
    map k | k in rows :: if rows[k].category.Some? && rows[k].category.value in ids then rows[k].(category := None) else rows[k]
  }

  /** `clear_august_categories`: when the period has categories, every purchase filed under
      one of them loses its category, then the categories are deleted; the result is how
      many there were. */
  method ClearPeriodCategories(db: Store, pid: int) returns (cleared: nat)
    requires db.Valid()
    modifies db
    ensures db.Valid()
    ensures cleared == |PeriodCategoryIds(old(db.categories.rows), pid)|
    ensures db.categories == old(db.categories).(rows := old(db.categories.rows) - PeriodCategoryIds(old(db.categories.rows), pid))
    ensures db.purchases == old(db.purchases).(rows := UnlinkCategories(old(db.purchases.rows), PeriodCategoryIds(old(db.categories.rows), pid)))
    ensures db.accounts == old(db.accounts) && db.periods == old(db.periods)
  {
    var ids := PeriodCategoryIds(db.categories.rows, pid);
    cleared := |ids|;
    if cleared > 0 {
      db.purchases := db.purchases.(rows := UnlinkCategories(db.purchases.rows, ids));
      db.categories := db.categories.(rows := db.categories.rows - ids);
    } else {
      assert ids == {};
      assert db.categories.rows - ids == db.categories.rows;
      assert UnlinkCategories(db.purchases.rows, ids) == db.purchases.rows;
    }
  }

  /** Every purchase's category exists. */
  predicate CategoryRefsValid(purchases: map<int, Purchase>, cats: map<int, Category>) {
    forall k :: k in purchases && purchases[k].category.Some? ==> purchases[k].category.value in cats
  }

  /** Clearing a period leaves no purchase pointing at a deleted category, and the
      categories of every other period are kept as they were. */
  lemma {:induction false} ClearKeepsReferences(purchases: map<int, Purchase>, cats: map<int, Category>, pid: int)
    requires CategoryRefsValid(purchases, cats)
    ensures var ids := PeriodCategoryIds(cats, pid);
            CategoryRefsValid(UnlinkCategories(purchases, ids), cats - ids)
    ensures forall k :: k in cats && cats[k].period != Some(pid) ==> k in cats - PeriodCategoryIds(cats, pid)
    ensures forall k :: k in cats - PeriodCategoryIds(cats, pid) ==> cats[k].period != Some(pid)
  {
  }

  /** Whether the period already has a category of that name, so that the insert would
      break the `(name, period_id)` constraint. */
  predicate HasCategoryIn(rows: map<int, Category>, name: string, pid: int) {
    exists k :: k in rows && rows[k].name == name && rows[k].period == Some(pid)
  }

  /** One INSERT of `populate_budget_categories`: the leaf's name with budgeted and current
      both set to its amount, in period `pid`; the constraint refuses a name the period
      already has, and the refused insert still consumes an id. */
  function InsertLeaf(t: Table<Category>, line: Line, pid: int): (r: (Table<Category>, bool))
    requires t.Valid() && CategoryKeysUnique(t.rows)
    ensures r.0.Valid() && CategoryKeysUnique(r.0.rows)
    ensures r.1 <==> !HasCategoryIn(t.rows, line.name, pid)
    ensures r.1 ==> r.0 == t.Insert(Category(line.name, line.amount, line.amount, Some(pid)))
    ensures !r.1 ==> r.0 == t.Skip()
  {
    if HasCategoryIn(t.rows, line.name, pid) then (t.Skip(), false)
    else (t.Insert(Category(line.name, line.amount, line.amount, Some(pid))), true)
  }

  /** The INSERTs for all leaves in order; the count is the number of rows stored. */
  function InsertLeaves(t: Table<Category>, lines: seq<Line>, pid: int): (r: (Table<Category>, nat))
    requires t.Valid() && CategoryKeysUnique(t.rows)
    ensures r.0.Valid() && CategoryKeysUnique(r.0.rows)
    decreases |lines|
  {
    if |lines| == 0 then (t, 0)
    else
      var prev := InsertLeaves(t, lines[..|lines| - 1], pid);
      var step := InsertLeaf(prev.0, lines[|lines| - 1], pid);
      (step.0, prev.1 + (if step.1 then 1 else 0))
  }

  /** The inserts keep every earlier category, and the count is the number of rows added. */
  lemma {:induction false} InsertLeavesKeeps(t: Table<Category>, lines: seq<Line>, pid: int)
    requires t.Valid() && CategoryKeysUnique(t.rows)
    ensures var r := InsertLeaves(t, lines, pid);
            (forall k :: k in t.rows ==> k in r.0.rows && r.0.rows[k] == t.rows[k]) &&
            |r.0.rows| == |t.rows| + r.1 && r.1 <= |lines|
    decreases |lines|
  {
    if |lines| > 0 {
      InsertLeavesKeeps(t, lines[..|lines| - 1], pid);
    }
  }

  /** Every category the inserts add is a leaf in period `pid` with budgeted and current
      equal to its amount. */
  lemma {:induction false} InsertLeavesNew(t: Table<Category>, lines: seq<Line>, pid: int)
    requires t.Valid() && CategoryKeysUnique(t.rows)
    ensures var r := InsertLeaves(t, lines, pid);
            forall k :: k in r.0.rows && k !in t.rows ==>
              exists j :: 0 <= j < |lines| &&
                r.0.rows[k] == Category(lines[j].name, lines[j].amount, lines[j].amount, Some(pid))
    decreases |lines|
  {
    if |lines| > 0 {
      var init := lines[..|lines| - 1];
      var last := lines[|lines| - 1];
      InsertLeavesNew(t, init, pid);
      var prev := InsertLeaves(t, init, pid);
      var r := InsertLeaves(t, lines, pid);
      assert r.0 == InsertLeaf(prev.0, last, pid).0;
      forall k | k in r.0.rows && k !in t.rows
        ensures exists j :: 0 <= j < |lines| &&
                  r.0.rows[k] == Category(lines[j].name, lines[j].amount, lines[j].amount, Some(pid))
      {
        if k in prev.0.rows {
          var j :| 0 <= j < |init| && prev.0.rows[k] == Category(init[j].name, init[j].amount, init[j].amount, Some(pid));
          assert lines[j] == init[j];
        } else {
          assert r.0.rows[k] == Category(last.name, last.amount, last.amount, Some(pid));
        }
      }
    }
  }

  /** After the inserts every leaf name exists in the period. */
  lemma {:induction false} InsertLeavesPresent(t: Table<Category>, lines: seq<Line>, pid: int)
    requires t.Valid() && CategoryKeysUnique(t.rows)
    ensures forall j :: 0 <= j < |lines| ==> HasCategoryIn(InsertLeaves(t, lines, pid).0.rows, lines[j].name, pid)
    decreases |lines|
  {
    if |lines| > 0 {
      var init := lines[..|lines| - 1];
      var last := lines[|lines| - 1];
      InsertLeavesPresent(t, init, pid);
      var prev := InsertLeaves(t, init, pid);
      var step := InsertLeaf(prev.0, last, pid);
      var r := InsertLeaves(t, lines, pid);
      assert r.0 == step.0;
      forall j | 0 <= j < |lines|
        ensures HasCategoryIn(r.0.rows, lines[j].name, pid)
      {
        if j == |lines| - 1 {
          if step.1 {
            assert r.0.rows[prev.0.nextId].name == last.name;
          } else {
            var k :| k in prev.0.rows && prev.0.rows[k].name == last.name && prev.0.rows[k].period == Some(pid);
            assert r.0.rows[k] == prev.0.rows[k];
          }
        } else {
          assert lines[j] == init[j];
          var k :| k in prev.0.rows && prev.0.rows[k].name == init[j].name && prev.0.rows[k].period == Some(pid);
          assert r.0.rows[k] == prev.0.rows[k];
        }
      }
    }
  }

  /** After the inserts every earlier category is unchanged, every new category is a leaf
      of the template in period `pid` with budgeted and current equal to its amount, every
      leaf name exists in the period, and the count is the number of rows added. */
  lemma {:induction false} InsertLeavesSpec(t: Table<Category>, lines: seq<Line>, pid: int)
    requires t.Valid() && CategoryKeysUnique(t.rows)
    ensures var r := InsertLeaves(t, lines, pid);
            (forall k :: k in t.rows ==> k in r.0.rows && r.0.rows[k] == t.rows[k]) &&
            (forall k :: k in r.0.rows && k !in t.rows ==>
               exists j :: 0 <= j < |lines| &&
                 r.0.rows[k] == Category(lines[j].name, lines[j].amount, lines[j].amount, Some(pid))) &&
            (forall j :: 0 <= j < |lines| ==> HasCategoryIn(r.0.rows, lines[j].name, pid)) &&
            |r.0.rows| == |t.rows| + r.1 && r.1 <= |lines|
  {
    InsertLeavesKeeps(t, lines, pid);
    InsertLeavesNew(t, lines, pid);
    InsertLeavesPresent(t, lines, pid);
  }

  /** Leaf names that are pairwise distinct. */
  predicate DistinctNames(lines: seq<Line>) {
    forall i, j :: 0 <= i < |lines| && 0 <= j < |lines| && lines[i].name == lines[j].name ==> i == j
  }

  /** When the period starts without any of the leaf names and the leaf names are distinct,
      every insert succeeds: one category per leaf. */
  lemma {:induction false} InsertLeavesAllCreated(t: Table<Category>, lines: seq<Line>, pid: int)
    requires t.Valid() && CategoryKeysUnique(t.rows) && DistinctNames(lines)
    requires forall j :: 0 <= j < |lines| ==> !HasCategoryIn(t.rows, lines[j].name, pid)
    ensures InsertLeaves(t, lines, pid).1 == |lines|
    decreases |lines|
  {
    if |lines| > 0 {
      var init := lines[..|lines| - 1];
      var last := lines[|lines| - 1];
      assert DistinctNames(init) by {
        forall i, j | 0 <= i < |init| && 0 <= j < |init| && init[i].name == init[j].name
          ensures i == j
        {
          assert lines[i] == init[i] && lines[j] == init[j];
        }
      }
      InsertLeavesAllCreated(t, init, pid);
      InsertLeavesSpec(t, init, pid);
      var prev := InsertLeaves(t, init, pid);
    }
  }

  /** Every INSERT, stored or refused, consumes one id. */
  lemma {:induction false} InsertLeavesNextId(t: Table<Category>, lines: seq<Line>, pid: int)
    requires t.Valid() && CategoryKeysUnique(t.rows)
    ensures InsertLeaves(t, lines, pid).0.nextId == t.nextId + |lines|
    decreases |lines|
  {
    if |lines| > 0 {
      InsertLeavesNextId(t, lines[..|lines| - 1], pid);
    }
  }

  /** The INSERTs as PostgreSQL runs them inside one transaction: once an INSERT is refused
      the transaction is aborted, and every later statement is rejected before it runs.
      The flag tells whether that happened; the count is the rows stored before it. */
  function InsertUntilRefused(t: Table<Category>, lines: seq<Line>, pid: int): (r: (Table<Category>, nat, bool))
    requires t.Valid() && CategoryKeysUnique(t.rows)
    ensures r.0.Valid() && CategoryKeysUnique(r.0.rows)
    decreases |lines|
  {
    if |lines| == 0 then (t, 0, false)
    else
      var prev := InsertUntilRefused(t, lines[..|lines| - 1], pid);
      if prev.2 then prev
      else
        var step := InsertLeaf(prev.0, lines[|lines| - 1], pid);
        (step.0, prev.1 + (if step.1 then 1 else 0), !step.1)
  }

  /** `populate_budget_categories` as written: the `except` around each INSERT carries on in
      the aborted transaction, and the final COMMIT then rolls every row back, while the
      reported count still holds the inserts made before the refusal. Sequence values
      already drawn stay drawn. */
  function PopulateAsWritten(t: Table<Category>, lines: seq<Line>, pid: int): (r: (Table<Category>, nat))
    requires t.Valid() && CategoryKeysUnique(t.rows)
  {
    var run := InsertUntilRefused(t, lines, pid);
    if run.2 then (t.(nextId := run.0.nextId), run.1) else (run.0, run.1)
  }

  /** When no INSERT is refused the transaction never aborts, and the script as written
      stores and counts exactly what skipping refused rows would. */
  lemma {:induction false} AsWrittenAgreesWithoutRefusal(t: Table<Category>, lines: seq<Line>, pid: int)
    requires t.Valid() && CategoryKeysUnique(t.rows)
    ensures !InsertUntilRefused(t, lines, pid).2 ==> PopulateAsWritten(t, lines, pid) == InsertLeaves(t, lines, pid)
    decreases |lines|
  {
    if |lines| > 0 {
      AsWrittenAgreesWithoutRefusal(t, lines[..|lines| - 1], pid);
    }
  }

  /** A period that already holds the second of two leaves: as written, the script reports
      one category created and stores none; skipping the refused row instead stores the
      first leaf and reports it. */
  lemma {:induction false} PopulateAsWrittenLosesRows()
    ensures var lines := [Line("Robert - Food", 100), Line("Robert - Fuel", 50)];
            var held := Table(map[1 := Category("Robert - Fuel", 0, 0, Some(5))], 2);
            PopulateAsWritten(held, lines, 5).1 == 1 &&
            PopulateAsWritten(held, lines, 5).0.rows == held.rows &&
            InsertLeaves(held, lines, 5).1 == 1 &&
            InsertLeaves(held, lines, 5).0.rows == held.rows[2 := Category("Robert - Food", 100, 100, Some(5))]
  {
    var held := Table(map[1 := Category("Robert - Fuel", 0, 0, Some(5))], 2);
    var lines := [Line("Robert - Food", 100), Line("Robert - Fuel", 50)];
    assert lines[..1] == [Line("Robert - Food", 100)] && lines[..1][..0] == [];
    assert !HasCategoryIn(held.rows, "Robert - Food", 5);
    var one := held.Insert(Category("Robert - Food", 100, 100, Some(5)));
    assert InsertUntilRefused(held, lines[..1], 5) == (one, 1, false);
    assert one.rows[1].name == "Robert - Fuel" && one.rows[1].period == Some(5);
    assert HasCategoryIn(one.rows, "Robert - Fuel", 5);
    assert InsertLeaves(held, lines[..1], 5) == (one, 1);
  }

  /** `populate_budget_categories`: an empty template creates nothing and reports 0;
      otherwise every leaf of the template is inserted into period `pid` in template order
      and the result counts the rows stored. `pid` is the id `switch_to_august_period`
      read back from the period table, so it names a period. */
  method PopulateBudgetCategories(db: Store, budget: seq<OwnerBudget>, pid: int) returns (created: nat)
    requires db.Valid() && CategoryKeysUnique(db.categories.rows) && pid in db.periods.rows
    modifies db
    ensures db.Valid() && CategoryKeysUnique(db.categories.rows)
    ensures |budget| == 0 ==> created == 0 && unchanged(db)
    ensures (db.categories, created) == InsertLeaves(old(db.categories), Leaves(budget), pid)
    ensures db.accounts == old(db.accounts) && db.purchases == old(db.purchases) && db.periods == old(db.periods)
  {
    if |budget| == 0 {
      return 0;
    }
    var cats;
    cats, created := RunInsertLeaves(db.categories, Leaves(budget), pid);
    db.categories := cats;
  }

  /** The loop of `populate_budget_categories` over the leaves, on the category table as
      the open transaction sees it. */
  method RunInsertLeaves(t0: Table<Category>, lines: seq<Line>, pid: int) returns (t: Table<Category>, created: nat)
    requires t0.Valid() && CategoryKeysUnique(t0.rows)
    ensures (t, created) == InsertLeaves(t0, lines, pid)
  {
    t, created := t0, 0;
    var i := 0;
    while i < |lines|
      invariant 0 <= i <= |lines|
      invariant (t, created) == InsertLeaves(t0, lines[..i], pid)
    {
      assert lines[..i + 1][..i] == lines[..i];
      var line := lines[i];
      if HasCategoryIn(t.rows, line.name, pid) {
        t := t.Skip();
      } else {
        t := t.Insert(Category(line.name, line.amount, line.amount, Some(pid)));
        created := created + 1;
      }
      i := i + 1;
    }
    assert lines[..i] == lines;
  }

  function SalaryPatterns(user: string): seq<string> {
    [OwnedName(user, "Bank Zero Cheque"), OwnedName(user, "Cheque"), OwnedName(user, "Primary"), OwnedName(user, "Main")]
  }

  /** The first name of `names` that some account has, with that account's id. */
  function FirstExisting(rows: map<int, Account>, names: seq<string>): (r: Option<int>)
    ensures r.Some? ==> r.value in rows
  {
    if |names| == 0 then None
    else
      var found := FindAccount(rows, names[0]);
      if found.Some? then found else FirstExisting(rows, names[1..])
  }

  /** The search answers with the account of the first name that exists, and with None
      exactly when no name exists. */
  lemma {:induction false} FirstExistingSpec(rows: map<int, Account>, names: seq<string>)
    ensures var r := FirstExisting(rows, names);
            r.Some? ==>
              exists j ::
                0 <= j < |names| && rows[r.value].name == names[j] && FindAccount(rows, names[j]) == r &&
                forall i :: 0 <= i < j ==> FindAccount(rows, names[i]).None?
    ensures FirstExisting(rows, names).None? <==> forall j :: 0 <= j < |names| ==> FindAccount(rows, names[j]).None?
    decreases |names|
  {
    if |names| > 0 && FindAccount(rows, names[0]).None? {
      FirstExistingSpec(rows, names[1..]);
      assert forall j :: 1 <= j < |names| ==> names[j] == names[1..][j - 1];
      var r := FirstExisting(rows, names);
      if r.Some? {
        var j :| 0 <= j < |names[1..]| && rows[r.value].name == names[1..][j] && FindAccount(rows, names[1..][j]) == r &&
                 forall i :: 0 <= i < j ==> FindAccount(rows, names[1..][i]).None?;
        assert forall i :: 0 <= i < j + 1 ==> FindAccount(rows, names[i]).None? by {
          forall i | 0 <= i < j + 1 ensures FindAccount(rows, names[i]).None? {
            if i > 0 { assert names[i] == names[1..][i - 1]; }
          }
        }
      }
    }
  }

  /** The inner loop of `add_monthly_income`: try each pattern and stop at the first account
      found. */
  method FindSalaryAccount(accounts: map<int, Account>, user: string) returns (r: Option<int>)
    ensures r == FirstExisting(accounts, SalaryPatterns(user))
  {
    var patterns := SalaryPatterns(user);
    r := None;
    var i := 0;
    while i < |patterns|
      invariant 0 <= i <= |patterns|
      invariant FirstExisting(accounts, patterns) == FirstExisting(accounts, patterns[i..])
    {
      var found := FindAccount(accounts, patterns[i]);
      if found.Some? {
        r := found;
        break;
      }
      assert patterns[i..][1..] == patterns[i + 1..];
      i := i + 1;
    }
    if r.None? {
      assert patterns[i..] == [];
    }
  }

  const SalaryDescription: string := "Monthly salary - August 2025"

  /** The purchases rows the salary deposits store: one per salary greater than zero whose
      owner has an account matching a pattern, for minus the salary, on that account, with
      no category. */
  function SalaryRecords(rows: map<int, Account>, income: seq<Salary>, date: string): seq<Purchase> {
    if |income| == 0 then []
    else
      var s := income[|income| - 1];
      var target := FirstExisting(rows, SalaryPatterns(s.owner));
      SalaryRecords(rows, income[..|income| - 1], date) +
        (if s.amount > 0 && target.Some? then [SalaryRecord(s, target, date)] else [])
  }

  /** The purchases row of one deposit: minus the salary, on the account, no category. */
  function SalaryRecord(s: Salary, target: Option<int>, date: string): Purchase {
    Purchase(s.owner, -s.amount, target, None, SalaryDescription, date)
  }

  /** The salaries actually deposited. */
  function DepositedTotal(rows: map<int, Account>, income: seq<Salary>): int {
    if |income| == 0 then 0
    else
      var s := income[|income| - 1];
      DepositedTotal(rows, income[..|income| - 1]) +
        (if s.amount > 0 && FirstExisting(rows, SalaryPatterns(s.owner)).Some? then s.amount else 0)
  }

  /** The deposits never exceed the positive salaries, and they reach them exactly when every
      owner with a positive salary has a matching account. */
  lemma {:induction false} DepositedTotalBound(rows: map<int, Account>, income: seq<Salary>)
    ensures 0 <= DepositedTotal(rows, income) <= PositiveSalaryTotal(income)
    ensures (forall j :: 0 <= j < |income| && income[j].amount > 0 ==>
               FirstExisting(rows, SalaryPatterns(income[j].owner)).Some?) ==>
            DepositedTotal(rows, income) == PositiveSalaryTotal(income)
    decreases |income|
  {
    if |income| > 0 {
      var init := income[..|income| - 1];
      DepositedTotalBound(rows, init);
      assert forall j :: 0 <= j < |init| ==> init[j] == income[j];
    }
  }

  /** The facts one iteration of the deposit loop needs: the balances so far still find
      the same account for the salary, and a deposit extends the rows, the balances and the
      total by one step. */
  lemma {:induction false} DepositStep(accounts0: Table<Account>, purchases0: Table<Purchase>, income: seq<Salary>, i: int, date: string)
    requires accounts0.Valid() && AccountNamesUnique(accounts0.rows) && purchases0.Valid() && 0 <= i < |income|
    ensures var recs := SalaryRecords(accounts0.rows, income[..i], date);
            var accounts := DebitedAccounts(accounts0.rows, recs);
            var s := income[i];
            var target := FirstExisting(accounts0.rows, SalaryPatterns(s.owner));
            FirstExisting(accounts, SalaryPatterns(s.owner)) == target &&
            (target.Some? ==> target.value in accounts) &&
            (s.amount > 0 && target.Some? ==>
               SalaryRecords(accounts0.rows, income[..i + 1], date) == recs + [SalaryRecord(s, target, date)] &&
               DepositedTotal(accounts0.rows, income[..i + 1]) == DepositedTotal(accounts0.rows, income[..i]) + s.amount &&
               DebitedAccounts(accounts0.rows, recs + [SalaryRecord(s, target, date)]) == AdjustBalance(accounts, target.value, s.amount) &&
               purchases0.InsertAll(recs + [SalaryRecord(s, target, date)]) == purchases0.InsertAll(recs).Insert(SalaryRecord(s, target, date))) &&
            (!(s.amount > 0 && target.Some?) ==>
               SalaryRecords(accounts0.rows, income[..i + 1], date) == recs &&
               DepositedTotal(accounts0.rows, income[..i + 1]) == DepositedTotal(accounts0.rows, income[..i]))
  {
    var recs := SalaryRecords(accounts0.rows, income[..i], date);
    DebitedAccountsNames(accounts0.rows, recs);
    SalaryTargetUnchanged(DebitedAccounts(accounts0.rows, recs), accounts0.rows, income[i].owner);
    SalaryStep(accounts0.rows, purchases0, income, i, date);
    var target := FirstExisting(accounts0.rows, SalaryPatterns(income[i].owner));
    if target.Some? {
      assert target.value >= 1;
    }
  }

  /** One more salary extends the stored rows, the balances and the total by its deposit,
      if any. */
  lemma {:induction false} SalaryStep(rows: map<int, Account>, purchases: Table<Purchase>, income: seq<Salary>, i: int, date: string)
    requires purchases.Valid() && 0 <= i < |income|
    ensures var recs := SalaryRecords(rows, income[..i], date);
            var s := income[i];
            var target := FirstExisting(rows, SalaryPatterns(s.owner));
            var row := SalaryRecord(s, target, date);
            if s.amount > 0 && target.Some? then
              SalaryRecords(rows, income[..i + 1], date) == recs + [row] &&
              DepositedTotal(rows, income[..i + 1]) == DepositedTotal(rows, income[..i]) + s.amount &&
              DebitedAccounts(rows, recs + [row]) == DebitAccount(DebitedAccounts(rows, recs), row) &&
              purchases.InsertAll(recs + [row]) == purchases.InsertAll(recs).Insert(row)
            else
              SalaryRecords(rows, income[..i + 1], date) == recs &&
              DepositedTotal(rows, income[..i + 1]) == DepositedTotal(rows, income[..i])
  {
    assert income[..i + 1][..i] == income[..i];
    var recs := SalaryRecords(rows, income[..i], date);
    var row := SalaryRecord(income[i], FirstExisting(rows, SalaryPatterns(income[i].owner)), date);
    DebitedAccountsSnoc(rows, recs, row);
    assert (recs + [row])[..|recs|] == recs;
  }

  /** `add_monthly_income`: no income data deposits nothing; otherwise each salary greater
      than zero is credited to the first account among its owner's patterns and recorded as
      a purchase of minus the salary with no category, and the result is the total
      deposited. Owners without a matching account get nothing. */
  method AddMonthlyIncome(db: Store, income: seq<Salary>, date: string) returns (total: int)
    requires db.Valid()
    modifies db
    ensures db.Valid()
    ensures |income| == 0 ==> total == 0 && unchanged(db)
    ensures var recs := SalaryRecords(old(db.accounts.rows), income, date);
            total == DepositedTotal(old(db.accounts.rows), income) &&
            db.accounts == old(db.accounts).(rows := DebitedAccounts(old(db.accounts.rows), recs)) &&
            db.purchases == old(db.purchases).InsertAll(recs)
    ensures db.categories == old(db.categories) && db.periods == old(db.periods)
  {
    if |income| == 0 {
      return 0;
    }
    var accounts, purchases;
    accounts, purchases, total := DepositSalaries(db.accounts, db.purchases, income, date);
    DebitedKeepsValid(db.accounts, db.categories, SalaryRecords(db.accounts.rows, income, date));
    db.accounts, db.purchases := accounts, purchases;
  }

  /** The loop of `add_monthly_income` over the salaries, on the account and purchase
      tables as the open transaction sees them. */
  method DepositSalaries(accounts0: Table<Account>, purchases0: Table<Purchase>, income: seq<Salary>, date: string)
    returns (accounts: Table<Account>, purchases: Table<Purchase>, total: int)
    requires accounts0.Valid() && AccountNamesUnique(accounts0.rows) && purchases0.Valid()
    ensures var recs := SalaryRecords(accounts0.rows, income, date);
            total == DepositedTotal(accounts0.rows, income) &&
            accounts == accounts0.(rows := DebitedAccounts(accounts0.rows, recs)) &&
            purchases == purchases0.InsertAll(recs)
  {
    accounts, purchases, total := accounts0, purchases0, 0;
    var i := 0;
    while i < |income|
      invariant 0 <= i <= |income|
      invariant accounts == accounts0.(rows := DebitedAccounts(accounts0.rows, SalaryRecords(accounts0.rows, income[..i], date)))
      invariant purchases == purchases0.InsertAll(SalaryRecords(accounts0.rows, income[..i], date))
      invariant total == DepositedTotal(accounts0.rows, income[..i])
    {
      DepositStep(accounts0, purchases0, income, i, date);
      var s := income[i];
      if s.amount > 0 {
        var target := FindSalaryAccount(accounts.rows, s.owner);
        if target.Some? {
          accounts := accounts.(rows := AdjustBalance(accounts.rows, target.value, s.amount));
          purchases := purchases.Insert(SalaryRecord(s, target, date));
          total := total + s.amount;
        }
      }
      i := i + 1;
    }
    assert income[..i] == income;
  }


  /** Balance updates keep ids and names, so the salary account found stays the same. */
  lemma {:induction false} SalaryTargetUnchanged(a: map<int, Account>, b: map<int, Account>, user: string)
    requires a.Keys == b.Keys && forall k :: k in a ==> a[k].name == b[k].name
    ensures FirstExisting(a, SalaryPatterns(user)) == FirstExisting(b, SalaryPatterns(user))
  {
    forall n | n in SalaryPatterns(user)
      ensures FindAccount(a, n) == FindAccount(b, n)
    {
      FindAccountSameNames(a, b, n);
    }
    FirstExistingSameLookups(a, b, SalaryPatterns(user));
  }

  /** The pattern search gives the same answer on two account tables whose lookups agree. */
  lemma {:induction false} FirstExistingSameLookups(a: map<int, Account>, b: map<int, Account>, names: seq<string>)
    requires forall n :: n in names ==> FindAccount(a, n) == FindAccount(b, n)
    ensures FirstExisting(a, names) == FirstExisting(b, names)
    decreases |names|
  {
    if |names| > 0 {
      assert forall n :: n in names[1..] ==> n in names;
      FirstExistingSameLookups(a, b, names[1..]);
    }
  }
}
