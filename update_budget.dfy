/** Bringing the categories in line with the configured template: each "user - category"
    gets the configured amount as its budget (its spending is left alone), missing ones are
    created with nothing spent, and the run counts the categories it touched. */
module UpdateBudget {
  import opened Common
  import opened Template
  import opened Ledger
  import opened App
  import opened FixCategories

  /** One top-level entry. The amount is converted with `float()` before the row is looked
      at or written, so a nested entry fails whether or not its name exists. The flag tells
      whether the entry counted as an update. */
  function UpdateEntry(t: Table<Category>, e: EntryRef): (r: Result<(Table<Category>, bool)>)
    requires t.Valid()
    ensures r.Ok? ==> r.value.0.Valid()
    ensures r.Err? <==> e.entry.value.Nested?
  {
    match e.entry.value
    case Nested(_) => Err(NotANumber)
    case Leaf(a) =>
      var found := FindCategory(t.rows, EntryName(e));
      if found.None? then Ok((t.Insert(Category(EntryName(e), a, 0, None)), true))
      else if t.rows[found.value].budgeted != a then Ok((t.(rows := SetBudgeted(t.rows, found.value, a)), true))
      else Ok((t, false))
  }

  /** The entries in template order with the running count; the first failure ends the run. */
  function UpdateEntries(t: Table<Category>, es: seq<EntryRef>): (r: Result<(Table<Category>, nat)>)
    requires t.Valid()
    ensures r.Ok? ==> r.value.0.Valid()
    decreases |es|
  {
    if |es| == 0 then Ok((t, 0))
    else
      match UpdateEntries(t, es[..|es| - 1])
      case Err(m) => Err(m)
      case Ok(prev) =>
        match UpdateEntry(prev.0, es[|es| - 1])
        case Err(m) => Err(m)
        case Ok(step) => Ok((step.0, prev.1 + (if step.1 then 1 else 0)))
  }

  /** The run fails, with the conversion error, exactly when some entry is nested. */
  lemma {:induction false} UpdateEntriesErr(t: Table<Category>, es: seq<EntryRef>)
    requires t.Valid()
    ensures UpdateEntries(t, es).Err? <==> exists j :: 0 <= j < |es| && es[j].entry.value.Nested?
    ensures UpdateEntries(t, es).Err? ==> UpdateEntries(t, es).message == NotANumber
    decreases |es|
  {
    if |es| > 0 {
      UpdateEntriesErr(t, es[..|es| - 1]);
      NestedSnoc(es, es[..|es| - 1]);
    }
  }

  /** Some entry is nested exactly when one before the last is, or the last is. */
  lemma {:induction false} NestedSnoc(es: seq<EntryRef>, init: seq<EntryRef>)
    requires |es| > 0 && init == es[..|es| - 1]
    ensures (exists j :: 0 <= j < |es| && es[j].entry.value.Nested?) <==>
            (exists j :: 0 <= j < |init| && init[j].entry.value.Nested?) || es[|es| - 1].entry.value.Nested?
  {
    if exists j :: 0 <= j < |init| && init[j].entry.value.Nested? {
      var j :| 0 <= j < |init| && init[j].entry.value.Nested?;
      assert es[j] == init[j];
    }
    if exists j :: 0 <= j < |es| && es[j].entry.value.Nested? {
      var j :| 0 <= j < |es| && es[j].entry.value.Nested?;
      if j < |init| {
        assert init[j] == es[j];
      }
    }
  }

  /** A failure on a prefix of the entries is the failure of the whole run. */
  lemma {:induction false} UpdateErrSticky(t: Table<Category>, es: seq<EntryRef>, i: int)
    requires t.Valid() && 0 <= i <= |es| && UpdateEntries(t, es[..i]).Err?
    ensures UpdateEntries(t, es) == UpdateEntries(t, es[..i])
    decreases |es|
  {
    if i < |es| {
      var init := es[..|es| - 1];
      assert init[..i] == es[..i];
      UpdateErrSticky(t, init, i);
    } else {
      assert es[..i] == es;
    }
  }

  /** A successful run keeps every earlier category with its name, spending and period:
      only its budget can change. The table grows by at most the count. */
  lemma {:induction false} UpdateEntriesFrame(t: Table<Category>, es: seq<EntryRef>)
    requires t.Valid() && UpdateEntries(t, es).Ok?
    ensures forall k :: k in t.rows ==>
              k in UpdateEntries(t, es).value.0.rows &&
              UpdateEntries(t, es).value.0.rows[k].name == t.rows[k].name &&
              UpdateEntries(t, es).value.0.rows[k].current == t.rows[k].current &&
              UpdateEntries(t, es).value.0.rows[k].period == t.rows[k].period
    ensures |t.rows| <= |UpdateEntries(t, es).value.0.rows| <= |t.rows| + UpdateEntries(t, es).value.1
    ensures UpdateEntries(t, es).value.1 <= |es|
    decreases |es|
  {
    if |es| > 0 {
      UpdateEntriesFrame(t, es[..|es| - 1]);
    }
  }

  /** A successful run that counts nothing changes nothing. */
  lemma {:induction false} UpdateCountZero(t: Table<Category>, es: seq<EntryRef>)
    requires t.Valid() && UpdateEntries(t, es).Ok? && UpdateEntries(t, es).value.1 == 0
    ensures UpdateEntries(t, es).value.0 == t
    decreases |es|
  {
    if |es| > 0 {
      UpdateCountZero(t, es[..|es| - 1]);
    }
  }

  /** One entry changes at most the budget of a category of its own name, to its amount,
      or adds one category of that name. */
  lemma {:induction false} UpdateEntryRows(t: Table<Category>, e: EntryRef)
    requires t.Valid() && UpdateEntry(t, e).Ok?
    ensures var r := UpdateEntry(t, e).value.0;
            forall k :: k in r.rows ==>
              (k in t.rows && r.rows[k] == t.rows[k]) ||
              (k in t.rows && t.rows[k].name == EntryName(e) && r.rows[k] == t.rows[k].(budgeted := e.entry.value.amount)) ||
              (k !in t.rows && r.rows[k] == Category(EntryName(e), e.entry.value.amount, 0, None))
  {
  }

  /** The categories the run creates carry a configured name and amount with nothing spent
      and no period. */
  lemma {:induction false} UpdateEntriesCreates(t: Table<Category>, es: seq<EntryRef>)
    requires t.Valid() && UpdateEntries(t, es).Ok?
    ensures var r := UpdateEntries(t, es).value.0;
            forall k :: k in r.rows && k !in t.rows ==>
              exists j :: 0 <= j < |es| && es[j].entry.value.Leaf? &&
                r.rows[k] == Category(EntryName(es[j]), es[j].entry.value.amount, 0, None)
    decreases |es|
  {
    if |es| > 0 {
      var init := es[..|es| - 1];
      var e := es[|es| - 1];
      UpdateEntriesCreates(t, init);
      UpdateEntriesFrame(t, init);
      var prev := UpdateEntries(t, init).value.0;
      var r := UpdateEntries(t, es).value.0;
      assert r == UpdateEntry(prev, e).value.0;
      UpdateEntryRows(prev, e);
      forall k | k in r.rows && k !in t.rows
        ensures exists j :: 0 <= j < |es| && es[j].entry.value.Leaf? &&
                  r.rows[k] == Category(EntryName(es[j]), es[j].entry.value.amount, 0, None)
      {
        if k in prev.rows && r.rows[k] == prev.rows[k] {
          var j :| 0 <= j < |init| && init[j].entry.value.Leaf? &&
                   prev.rows[k] == Category(EntryName(init[j]), init[j].entry.value.amount, 0, None);
          assert es[j] == init[j];
        } else {
          assert es[|es| - 1] == e;
        }
      }
    }
  }

  /** Entry names that are pairwise distinct. */
  predicate DistinctEntryNames(es: seq<EntryRef>) {
    forall i, j :: 0 <= i < |es| && 0 <= j < |es| && EntryName(es[i]) == EntryName(es[j]) ==> i == j
  }

  /** The category a name lookup finds carries the configured amount as its budget. */
  predicate Configured(rows: map<int, Category>, e: EntryRef) {
    e.entry.value.Leaf? && FindCategory(rows, EntryName(e)).Some? &&
    rows[FindCategory(rows, EntryName(e)).value].budgeted == e.entry.value.amount
  }

  /** One entry's update leaves every other name's lookup and budget as it was. */
  lemma {:induction false} UpdateEntryOthers(t: Table<Category>, e: EntryRef, other: EntryRef)
    requires t.Valid() && UpdateEntry(t, e).Ok? && EntryName(other) != EntryName(e)
    ensures var r := UpdateEntry(t, e).value.0;
            FindCategory(r.rows, EntryName(other)) == FindCategory(t.rows, EntryName(other)) &&
            (Configured(t.rows, other) ==> Configured(r.rows, other))
  {
    var r := UpdateEntry(t, e).value.0;
    var n := EntryName(other);
    assert CategoriesNamed(r.rows, n) == CategoriesNamed(t.rows, n);
  }

  /** With distinct names, after a successful run every entry is configured. */
  lemma {:induction false} UpdateEntriesConfigures(t: Table<Category>, es: seq<EntryRef>)
    requires t.Valid() && UpdateEntries(t, es).Ok? && DistinctEntryNames(es)
    ensures forall j :: 0 <= j < |es| ==> Configured(UpdateEntries(t, es).value.0.rows, es[j])
    decreases |es|
  {
    if |es| > 0 {
      var init := es[..|es| - 1];
      var e := es[|es| - 1];
      DistinctEntryNamesInit(es);
      UpdateEntriesConfigures(t, init);
      var prev := UpdateEntries(t, init).value.0;
      var r := UpdateEntries(t, es).value.0;
      assert r == UpdateEntry(prev, e).value.0;
      forall j | 0 <= j < |init|
        ensures Configured(r.rows, es[j])
      {
        assert es[j] == init[j];
        UpdateEntryOthers(prev, e, es[j]);
      }
      UpdateEntrySelf(prev, e);
    }
  }

  /** Dropping the last entry keeps the names distinct. */
  lemma {:induction false} DistinctEntryNamesInit(es: seq<EntryRef>)
    requires |es| > 0 && DistinctEntryNames(es)
    ensures DistinctEntryNames(es[..|es| - 1])
  {
    var init := es[..|es| - 1];
    forall i, j | 0 <= i < |init| && 0 <= j < |init| && EntryName(init[i]) == EntryName(init[j])
      ensures i == j
    {
      assert es[i] == init[i] && es[j] == init[j];
    }
  }

  /** After its own update an entry is configured. */
  lemma {:induction false} UpdateEntrySelf(t: Table<Category>, e: EntryRef)
    requires t.Valid() && UpdateEntry(t, e).Ok?
    ensures Configured(UpdateEntry(t, e).value.0.rows, e)
  {
    if FindCategory(t.rows, EntryName(e)).None? {
      FindCategoryOf(UpdateEntry(t, e).value.0.rows, t.nextId);
    }
  }

  lemma {:induction false} UpdateAllConfigured(t: Table<Category>, es: seq<EntryRef>)
    requires t.Valid() && forall j :: 0 <= j < |es| ==> Configured(t.rows, es[j])
    ensures UpdateEntries(t, es) == Ok((t, 0))
    decreases |es|
  {
    if |es| > 0 {
      UpdateAllConfigured(t, es[..|es| - 1]);
      assert Configured(t.rows, es[|es| - 1]);
    }
  }

  /** A second run with the same template reports 0 categories updated and changes nothing. */
  lemma {:induction false} SecondRunUpdatesNothing(t: Table<Category>, es: seq<EntryRef>)
    requires t.Valid() && UpdateEntries(t, es).Ok? && DistinctEntryNames(es)
    ensures var once := UpdateEntries(t, es).value.0;
            UpdateEntries(once, es) == Ok((once, 0))
  {
    UpdateEntriesConfigures(t, es);
    UpdateAllConfigured(UpdateEntries(t, es).value.0, es);
  }

  /** One more entry is one more step of the run. */
  lemma {:induction false} UpdateEntriesStep(t: Table<Category>, es: seq<EntryRef>, i: int)
    requires t.Valid() && 0 <= i < |es| && UpdateEntries(t, es[..i]).Ok?
    ensures var prev := UpdateEntries(t, es[..i]).value;
            var step := UpdateEntry(prev.0, es[i]);
            UpdateEntries(t, es[..i + 1]) ==
              if step.Err? then Err(step.message) else Ok((step.value.0, prev.1 + (if step.value.1 then 1 else 0)))
  {
    assert es[..i + 1][..i] == es[..i];
  }

  /** The loop of `update_budget_categories` over the top-level entries, on the table as the
      open transaction sees it; the first failure ends it. */
  method RunEntries(t0: Table<Category>, es: seq<EntryRef>) returns (r: Result<(Table<Category>, nat)>)
    requires t0.Valid()
    ensures r == UpdateEntries(t0, es)
  {
    var t := t0;
    var updated := 0;
    var i := 0;
    while i < |es|
      invariant 0 <= i <= |es| && t.Valid()
      invariant UpdateEntries(t0, es[..i]) == Ok((t, updated))
    {
      UpdateEntriesStep(t0, es, i);
      var step := UpdateEntry(t, es[i]);
      if step.Err? {
        UpdateErrSticky(t0, es, i + 1);
        return Err(step.message);
      }
      t := step.value.0;
      if step.value.1 {
        updated := updated + 1;
      }
      i := i + 1;
    }
    assert es[..i] == es;
    return Ok((t, updated));
  }

  /** `update_budget_categories`: for every top-level entry, set the budget of the
      category found under "user - category" when it differs, or create the category with
      nothing spent; the result counts both. A nested entry raises and nothing is committed;
      an empty template changes nothing and counts 0. */
  method UpdateBudgetCategories(db: Store, budget: seq<OwnerBudget>) returns (r: Result<nat>)
    requires db.Valid()
    modifies db
    ensures db.Valid()
    ensures var expected := UpdateEntries(old(db.categories), Entries(budget));
            if expected.Ok? then r == Ok(expected.value.1) && db.categories == expected.value.0
            else r == Err(expected.message) && db.categories == old(db.categories)
    ensures db.accounts == old(db.accounts) && db.purchases == old(db.purchases) && db.periods == old(db.periods)
  {
    var run := RunEntries(db.categories, Entries(budget));
    if run.Err? {
      return Err(run.message);
    }
    db.categories := run.value.0;
    return Ok(run.value.1);
  }
}
