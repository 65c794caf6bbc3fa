/** The August budget population against the local database: every leaf of the template
    is upserted by name (reset when present, created when absent), then Robert's salary is
    deposited into "Robert - Bank Zero Cheque" when that account exists. */
module Populate {
  import opened Common
  import opened Template
  import opened Ledger
  import opened FinalFix

  /** `UPDATE budget_categories SET budgeted_amount = a, current_balance = a WHERE name = n`:
      every row of that name is reset. */
  function ResetByName(rows: map<int, Category>, name: string, amount: int): (r: map<int, Category>)
    ensures r.Keys == rows.Keys
    ensures forall k :: k in r ==> r[k].name == rows[k].name && r[k].period == rows[k].period
    ensures forall k :: k in r && rows[k].name == name ==> r[k].budgeted == amount && r[k].current == amount
    ensures forall k :: k in r && rows[k].name != name ==> r[k] == rows[k]
  {
    map k | k in rows :: if rows[k].name == name then rows[k].(budgeted := amount, current := amount) else rows[k]
  }

  /** One leaf: reset the categories of that name when there is one, otherwise insert it
      with both amounts set and no period. The flag tells whether a row was created. */
  function Upsert(t: Table<Category>, line: Line): (r: (Table<Category>, bool))
    requires t.Valid()
    ensures r.0.Valid()
    ensures r.1 <==> forall k :: k in t.rows ==> t.rows[k].name != line.name
  {
    if FindCategory(t.rows, line.name).Some? then (t.(rows := ResetByName(t.rows, line.name, line.amount)), false)
    else (t.Insert(Category(line.name, line.amount, line.amount, None)), true)
  }

  /** All leaves in order, counting creations and updates. */
  function UpsertAll(t: Table<Category>, lines: seq<Line>): (r: (Table<Category>, nat, nat))
    requires t.Valid()
    ensures r.0.Valid()
    decreases |lines|
  {
    if |lines| == 0 then (t, 0, 0)
    else
      var prev := UpsertAll(t, lines[..|lines| - 1]);
      var step := Upsert(prev.0, lines[|lines| - 1]);
      (step.0, prev.1 + (if step.1 then 1 else 0), prev.2 + (if step.1 then 0 else 1))
  }

  predicate HasLine(lines: seq<Line>, name: string) {
    exists j :: 0 <= j < |lines| && lines[j].name == name
  }

  /** The amount of the last leaf named `name`, the one whose UPDATE runs last. */
  function LastAmount(lines: seq<Line>, name: string): int {
    if |lines| == 0 then 0
    else if lines[|lines| - 1].name == name then lines[|lines| - 1].amount
    else LastAmount(lines[..|lines| - 1], name)
  }

  /** A category as the upserts leave it: reset to the last amount the template gives its
      name, or untouched when the template does not name it. */
  function Refreshed(c: Category, lines: seq<Line>): Category {
    if HasLine(lines, c.name) then c.(budgeted := LastAmount(lines, c.name), current := LastAmount(lines, c.name)) else c
  }

  lemma {:induction false} HasLineStep(lines: seq<Line>, name: string)
    requires |lines| > 0
    ensures HasLine(lines, name) <==> HasLine(lines[..|lines| - 1], name) || lines[|lines| - 1].name == name
  {
    var init := lines[..|lines| - 1];
    if HasLine(init, name) {
      var j :| 0 <= j < |init| && init[j].name == name;
      assert lines[j].name == name;
    }
    if HasLine(lines, name) && lines[|lines| - 1].name != name {
      var j :| 0 <= j < |lines| && lines[j].name == name;
      assert init[j].name == name;
    }
  }

  /** Each leaf counts once as created or updated, the table grows by the created rows, and
      every earlier category keeps its id and name. */
  lemma {:induction false} UpsertFrame(t: Table<Category>, lines: seq<Line>)
    requires t.Valid()
    ensures var r := UpsertAll(t, lines);
            (forall k :: k in t.rows ==> k in r.0.rows && r.0.rows[k].name == t.rows[k].name) &&
            r.1 + r.2 == |lines| && |r.0.rows| == |t.rows| + r.1
    decreases |lines|
  {
    if |lines| > 0 {
      UpsertFrame(t, lines[..|lines| - 1]);
    }
  }

  /** Every earlier category ends refreshed from the template. */
  lemma {:induction false} UpsertRefreshes(t: Table<Category>, lines: seq<Line>)
    requires t.Valid()
    ensures var r := UpsertAll(t, lines);
            forall k :: k in t.rows ==> k in r.0.rows && r.0.rows[k] == Refreshed(t.rows[k], lines)
    decreases |lines|
  {
    if |lines| > 0 {
      var init := lines[..|lines| - 1];
      var last := lines[|lines| - 1];
      UpsertRefreshes(t, init);
      UpsertFrame(t, init);
      var prev := UpsertAll(t, init);
      var r := UpsertAll(t, lines);
      assert r.0 == Upsert(prev.0, last).0;
      forall k | k in t.rows
        ensures k in r.0.rows && r.0.rows[k] == Refreshed(t.rows[k], lines)
      {
        HasLineStep(lines, t.rows[k].name);
        assert prev.0.rows[k] == Refreshed(t.rows[k], init);
      }
    }
  }

  /** Every category the upserts create carries a template name, the last amount the
      template gives it, and no period. */
  lemma {:induction false} UpsertNewRows(t: Table<Category>, lines: seq<Line>)
    requires t.Valid()
    ensures var r := UpsertAll(t, lines);
            forall k :: k in r.0.rows && k !in t.rows ==>
              HasLine(lines, r.0.rows[k].name) &&
              r.0.rows[k] == Category(r.0.rows[k].name, LastAmount(lines, r.0.rows[k].name), LastAmount(lines, r.0.rows[k].name), None)
    decreases |lines|
  {
    if |lines| > 0 {
      var init := lines[..|lines| - 1];
      var last := lines[|lines| - 1];
      UpsertNewRows(t, init);
      var prev := UpsertAll(t, init);
      var step := Upsert(prev.0, last);
      var r := UpsertAll(t, lines);
      assert r.0 == step.0;
      forall k | k in r.0.rows && k !in t.rows
        ensures HasLine(lines, r.0.rows[k].name)
        ensures r.0.rows[k] == Category(r.0.rows[k].name, LastAmount(lines, r.0.rows[k].name), LastAmount(lines, r.0.rows[k].name), None)
      {
        HasLineStep(lines, r.0.rows[k].name);
        if k in prev.0.rows {
          assert HasLine(init, prev.0.rows[k].name);
        } else {
          assert r.0.rows[k] == Category(last.name, last.amount, last.amount, None);
        }
      }
    }
  }

  /** Every leaf name exists once the upserts are done. */
  lemma {:induction false} UpsertNamesExist(t: Table<Category>, lines: seq<Line>)
    requires t.Valid()
    ensures var r := UpsertAll(t, lines);
            forall j :: 0 <= j < |lines| ==> FindCategory(r.0.rows, lines[j].name).Some?
    decreases |lines|
  {
    if |lines| > 0 {
      var init := lines[..|lines| - 1];
      var last := lines[|lines| - 1];
      UpsertNamesExist(t, init);
      var prev := UpsertAll(t, init);
      var step := Upsert(prev.0, last);
      var r := UpsertAll(t, lines);
      assert r.0 == step.0;
      forall j | 0 <= j < |lines|
        ensures FindCategory(r.0.rows, lines[j].name).Some?
      {
        if j < |init| {
          assert lines[j] == init[j];
          var k := FindCategory(prev.0.rows, init[j].name).value;
          assert k in r.0.rows && r.0.rows[k].name == lines[j].name;
        } else if step.1 {
          assert r.0.rows[prev.0.nextId].name == lines[j].name;
        } else {
          var k := FindCategory(prev.0.rows, last.name).value;
          assert k in r.0.rows && r.0.rows[k].name == lines[j].name;
        }
      }
    }
  }

  /** When every leaf name already exists the upserts create nothing: the ids and names are
      those of before. */
  lemma {:induction false} UpsertNoInsert(t: Table<Category>, lines: seq<Line>)
    requires t.Valid()
    requires forall j :: 0 <= j < |lines| ==> FindCategory(t.rows, lines[j].name).Some?
    ensures var r := UpsertAll(t, lines);
            r.1 == 0 && r.2 == |lines| && r.0.rows.Keys == t.rows.Keys &&
            forall k :: k in t.rows ==> r.0.rows[k].name == t.rows[k].name
    decreases |lines|
  {
    if |lines| > 0 {
      var init := lines[..|lines| - 1];
      var last := lines[|lines| - 1];
      assert forall j :: 0 <= j < |init| ==> init[j] == lines[j];
      UpsertNoInsert(t, init);
      var prev := UpsertAll(t, init);
      var k := FindCategory(t.rows, last.name).value;
      assert prev.0.rows[k].name == last.name;
    }
  }

  /** Running the population a second time with the same template changes no category and
      creates none: every leaf counts as updated. */
  lemma {:induction false} UpsertIdempotent(t: Table<Category>, lines: seq<Line>)
    requires t.Valid()
    ensures var once := UpsertAll(t, lines).0;
            var twice := UpsertAll(once, lines);
            twice.0.rows == once.rows && twice.1 == 0 && twice.2 == |lines|
  {
    var once := UpsertAll(t, lines).0;
    UpsertRefreshes(t, lines);
    UpsertNewRows(t, lines);
    UpsertNamesExist(t, lines);
    UpsertNoInsert(once, lines);
    UpsertRefreshes(once, lines);
    var twice := UpsertAll(once, lines);
    forall k | k in once.rows
      ensures twice.0.rows[k] == once.rows[k]
    {
      if k in t.rows {
        assert once.rows[k] == Refreshed(t.rows[k], lines);
      }
    }
  }

  /** The upserts never create a second category of a name: unique names stay unique. */
  lemma {:induction false} UpsertKeepsNamesUnique(t: Table<Category>, lines: seq<Line>)
    requires t.Valid() && CategoryNamesUnique(t.rows)
    ensures CategoryNamesUnique(UpsertAll(t, lines).0.rows)
    decreases |lines|
  {
    if |lines| > 0 {
      UpsertKeepsNamesUnique(t, lines[..|lines| - 1]);
    }
  }

  /** One more leaf is one more upsert. */
  lemma {:induction false} UpsertAllStep(t: Table<Category>, lines: seq<Line>, i: int)
    requires t.Valid() && 0 <= i < |lines|
    ensures var prev := UpsertAll(t, lines[..i]);
            var step := Upsert(prev.0, lines[i]);
            UpsertAll(t, lines[..i + 1]) == (step.0, prev.1 + (if step.1 then 1 else 0), prev.2 + (if step.1 then 0 else 1))
  {
    assert lines[..i + 1][..i] == lines[..i];
  }

  /** The loops over the template: every leaf in order resets the categories of its name or
      creates one, counting both. */
  method UpsertLeaves(db: Store, lines: seq<Line>) returns (created: nat, updated: nat)
    requires db.Valid()
    modifies db
    ensures db.Valid()
    ensures (db.categories, created, updated) == UpsertAll(old(db.categories), lines)
    ensures db.accounts == old(db.accounts) && db.purchases == old(db.purchases) && db.periods == old(db.periods)
  {
    var t0 := db.categories;
    var t := t0;
    created, updated := 0, 0;
    var i := 0;
    while i < |lines|
      invariant 0 <= i <= |lines| && t.Valid()
      invariant (t, created, updated) == UpsertAll(t0, lines[..i])
      invariant unchanged(db)
    {
      UpsertAllStep(t0, lines, i);
      var step := Upsert(t, lines[i]);
      t := step.0;
      if step.1 {
        created := created + 1;
      } else {
        updated := updated + 1;
      }
      i := i + 1;
    }
    assert lines[..i] == lines;
    db.categories := t;
  }

  const RobertAccount: string := "Robert - Bank Zero Cheque"

  /** `populate_august_budget`: upsert every leaf of the template in order, then deposit
      Robert's salary (0 when not listed) when it is greater than zero and his account
      exists. The results are the created and updated counts. */
  method PopulateAugustBudget(db: Store, settings: Settings, date: string) returns (created: nat, updated: nat)
    requires db.Valid()
    modifies db
    ensures db.Valid()
    ensures (db.categories, created, updated) == UpsertAll(old(db.categories), Leaves(settings.budget))
    ensures var salary := SalaryOf(settings.income, "Robert");
            var target := FindAccount(old(db.accounts.rows), RobertAccount);
            if salary > 0 && target.Some? then
              db.accounts == old(db.accounts).(rows := AdjustBalance(old(db.accounts.rows), target.value, salary)) &&
              db.purchases == old(db.purchases).Insert(SalaryRecord(Salary("Robert", salary), target, date))
            else
              db.accounts == old(db.accounts) && db.purchases == old(db.purchases)
    ensures db.periods == old(db.periods)
  {
    created, updated := UpsertLeaves(db, Leaves(settings.budget));
    var salary := SalaryOf(settings.income, "Robert");
    if salary > 0 {
      var target := FindAccount(db.accounts.rows, RobertAccount);
      if target.Some? {
        db.accounts := db.accounts.(rows := AdjustBalance(db.accounts.rows, target.value, salary));
        db.purchases := db.purchases.Insert(SalaryRecord(Salary("Robert", salary), target, date));
      }
    }
  }

  /** Every leaf counts once: created plus updated is the number of leaves, one per plain
      category and one per nested sub-category. */
  lemma {:induction false} PopulateCounts(t: Table<Category>, budget: seq<OwnerBudget>)
    requires t.Valid()
    ensures var r := UpsertAll(t, Leaves(budget));
            r.1 + r.2 == BudgetWeight(budget)
  {
    UpsertFrame(t, Leaves(budget));
    LeavesCount(budget);
  }
}
