/** The category repair script: report the names held by more than one category, merge
    every such group into its lowest id (amounts summed, purchases repointed), and insert
    the configured categories that are missing. */
module FixCategories {
  import opened Common
  import opened Template
  import opened Ledger
  import opened FinalFix

  /** The names `GROUP BY name HAVING COUNT(*) > 1` reports. */
  function DuplicateNames(rows: map<int, Category>): set<string> {
    set k | k in rows && |CategoriesNamed(rows, rows[k].name)| > 1 :: rows[k].name
  }

  /** A name is reported as duplicate exactly when two different categories carry it. */
  lemma {:induction false} DuplicateNamesIff(rows: map<int, Category>, n: string)
    ensures n in DuplicateNames(rows) <==>
            exists i, j :: i in rows && j in rows && i != j && rows[i].name == n && rows[j].name == n
  {
    var group := CategoriesNamed(rows, n);
    if n in DuplicateNames(rows) {
      var k :| k in rows && |CategoriesNamed(rows, rows[k].name)| > 1 && rows[k].name == n;
      assert |group - {k}| == |group| - 1;
      NonEmptyHasElement(group - {k});
      var j :| j in group - {k};
      assert k in rows && j in rows && k != j && rows[k].name == n && rows[j].name == n;
    }
    if exists i, j :: i in rows && j in rows && i != j && rows[i].name == n && rows[j].name == n {
      var i, j :| i in rows && j in rows && i != j && rows[i].name == n && rows[j].name == n;
      assert j in group - {i};
      assert |group - {i}| == |group| - 1;
      assert |group| > 1;
      assert rows[i].name in DuplicateNames(rows);
    }
  }

  /** The summed budgeted and current amounts of a set of categories. */
  function GroupTotals(rows: map<int, Category>, ids: set<int>): (int, int)
    requires ids <= rows.Keys
    decreases ids
  {
    if ids == {} then (0, 0)
    else
      NonEmptyHasElement(ids);
      var m := MinOf(ids);
      var rest := GroupTotals(rows, ids - {m});
      (rows[m].budgeted + rest.0, rows[m].current + rest.1)
  }

  /** The amounts of every category of one name, summed. */
  function NameTotals(rows: map<int, Category>, n: string): (int, int) {
    GroupTotals(rows, CategoriesNamed(rows, n))
  }

  lemma {:induction false} SingletonTotals(rows: map<int, Category>, k: int)
    requires k in rows
    ensures GroupTotals(rows, {k}) == (rows[k].budgeted, rows[k].current)
  {
    NonEmptyHasElement({k});
    assert MinOf({k}) == k;
    assert {k} - {k} == {};
  }

  /** The kept category of a group: its amounts become the group's sums. */
  function MergedRow(rows: map<int, Category>, k: int): Category
    requires k in rows
  {
    var t := NameTotals(rows, rows[k].name);
    rows[k].(budgeted := t.0, current := t.1)
  }

  /** The categories once the groups named in `done` are merged: only the lowest id of each
      such group survives, carrying the group's summed amounts. */
  function MergeNames(rows: map<int, Category>, done: set<string>): map<int, Category> {
    map k | k in rows && (rows[k].name !in done || FindCategory(rows, rows[k].name) == Some(k)) ::
      if rows[k].name in done then MergedRow(rows, k) else rows[k]
  }

  /** The categories after `fix_duplicates`. */
  function Merged(rows: map<int, Category>): map<int, Category> {
    MergeNames(rows, DuplicateNames(rows))
  }

  /** `UPDATE purchases SET budget_category_id = to WHERE budget_category_id = from`. */
  function RepointCategory(ps: map<int, Purchase>, from: int, to: int): (r: map<int, Purchase>)
    ensures r.Keys == ps.Keys
  {
    map i | i in ps :: if ps[i].category == Some(from) then ps[i].(category := Some(to)) else ps[i]
  }

  /** Every purchase filed under one of `ids` moved to `to`. */
  function RepointSet(ps: map<int, Purchase>, ids: set<int>, to: int): (r: map<int, Purchase>)
    ensures r.Keys == ps.Keys
  {
    map i | i in ps :: if ps[i].category.Some? && ps[i].category.value in ids then ps[i].(category := Some(to)) else ps[i]
  }

  /** The purchases once the groups named in `done` are merged: each purchase filed under
      a category of such a group is filed under the group's lowest id. */
  function RepointNames(ps: map<int, Purchase>, rows: map<int, Category>, done: set<string>): (r: map<int, Purchase>)
    ensures r.Keys == ps.Keys
  {
    map i | i in ps ::
      if ps[i].category.Some? && ps[i].category.value in rows && rows[ps[i].category.value].name in done
      then ps[i].(category := FindCategory(rows, rows[ps[i].category.value].name))
      else ps[i]
  }

  lemma {:induction false} RepointSetStep(ps: map<int, Purchase>, gone: set<int>, d: int, keep: int)
    requires d != keep
    ensures RepointCategory(RepointSet(ps, gone, keep), d, keep) == RepointSet(ps, gone + {d}, keep)
  {
  }

  /** Merging one more group: update its lowest id, then delete the others. */
  lemma {:induction false} MergeNamesStep(rows: map<int, Category>, done: set<string>, n: string, keep: int)
    requires n !in done && FindCategory(rows, n) == Some(keep)
    ensures keep in MergeNames(rows, done) && MergeNames(rows, done)[keep] == rows[keep]
    ensures var m := MergeNames(rows, done);
            m[keep := MergedRow(rows, keep)] - (CategoriesNamed(rows, n) - {keep}) == MergeNames(rows, done + {n})
  {
    var m := MergeNames(rows, done);
    var lhs := m[keep := MergedRow(rows, keep)] - (CategoriesNamed(rows, n) - {keep});
    var rhs := MergeNames(rows, done + {n});
    forall k | k in lhs
      ensures k in rhs && lhs[k] == rhs[k]
    {
      if rows[k].name == n {
        assert k == keep;
      }
    }
    forall k | k in rhs
      ensures k in lhs
    {
      if rows[k].name == n {
        assert k == keep;
      }
    }
  }

  /** Repointing one more group: its non-kept ids move to the kept one. */
  lemma {:induction false} RepointNamesStep(ps: map<int, Purchase>, rows: map<int, Category>, done: set<string>, n: string, keep: int)
    requires n !in done && FindCategory(rows, n) == Some(keep)
    ensures RepointSet(RepointNames(ps, rows, done), CategoriesNamed(rows, n) - {keep}, keep) == RepointNames(ps, rows, done + {n})
  {
    var lhs := RepointSet(RepointNames(ps, rows, done), CategoriesNamed(rows, n) - {keep}, keep);
    var rhs := RepointNames(ps, rows, done + {n});
    forall i | i in ps
      ensures lhs[i] == rhs[i]
    {
      var c := ps[i].category;
      if c.Some? && c.value in rows && rows[c.value].name in done {
        FindCategoryOf(rows, c.value);
        var k := FindCategory(rows, rows[c.value].name).value;
        assert rows[k].name != n;
      }
    }
  }

  /** One duplicate group of the query result: set the lowest id's amounts to the group's
      sums, then for every other id repoint its purchases and delete it. */
  method MergeGroup(db: Store, snapshot: map<int, Category>, ghost purchases0: map<int, Purchase>,
                    ghost done: set<string>, n: string)
    requires n !in done && FindCategory(snapshot, n).Some?
    requires db.categories.rows == MergeNames(snapshot, done)
    requires db.purchases.rows == RepointNames(purchases0, snapshot, done)
    modifies db
    ensures db.categories == old(db.categories).(rows := MergeNames(snapshot, done + {n}))
    ensures db.purchases == old(db.purchases).(rows := RepointNames(purchases0, snapshot, done + {n}))
    ensures db.accounts == old(db.accounts) && db.periods == old(db.periods)
  {
    var group := CategoriesNamed(snapshot, n);
    var keep := FindCategory(snapshot, n).value;
    MergeNamesStep(snapshot, done, n, keep);
    RepointNamesStep(purchases0, snapshot, done, n, keep);
    var totals := GroupTotals(snapshot, group);
    db.categories := db.categories.(rows := db.categories.rows[keep := db.categories.rows[keep].(budgeted := totals.0, current := totals.1)]);
    ghost var cats1 := db.categories.rows;
    ghost var purchases1 := db.purchases.rows;
    var rest := group - {keep};
    ghost var gone: set<int> := {};
    while rest != {}
      invariant rest + gone == group - {keep} && rest !! gone
      invariant db.categories == old(db.categories).(rows := cats1 - gone)
      invariant db.purchases == old(db.purchases).(rows := RepointSet(purchases1, gone, keep))
      invariant db.accounts == old(db.accounts) && db.periods == old(db.periods)
      decreases rest
    {
      NonEmptyHasElement(rest);
      var d :| d in rest;
      RepointSetStep(purchases1, gone, d, keep);
      db.purchases := db.purchases.(rows := RepointCategory(db.purchases.rows, d, keep));
      db.categories := db.categories.(rows := db.categories.rows - {d});
      assert cats1 - gone - {d} == cats1 - (gone + {d});
      rest := rest - {d};
      gone := gone + {d};
    }
  }

  lemma {:induction false} MergeNothing(rows: map<int, Category>, ps: map<int, Purchase>)
    ensures MergeNames(rows, {}) == rows && RepointNames(ps, rows, {}) == ps
  {
  }

  /** `fix_duplicates`: with no duplicate name nothing changes; otherwise every duplicate
      group is merged into its lowest id and the purchases of the others follow it. */
  method FixDuplicates(db: Store)
    requires db.Valid()
    modifies db
    ensures db.Valid()
    ensures DuplicateNames(old(db.categories.rows)) == {} ==> unchanged(db)
    ensures db.categories == old(db.categories).(rows := Merged(old(db.categories.rows)))
    ensures db.purchases == old(db.purchases).(rows := RepointNames(old(db.purchases.rows), old(db.categories.rows), DuplicateNames(old(db.categories.rows))))
    ensures db.accounts == old(db.accounts) && db.periods == old(db.periods)
  {
    var snapshot := db.categories.rows;
    ghost var purchases0 := db.purchases.rows;
    MergeNothing(snapshot, purchases0);
    var dups := DuplicateNames(snapshot);
    if dups == {} {
      return;
    }
    var todo := dups;
    ghost var done: set<string> := {};
    while todo != {}
      invariant todo + done == dups && todo !! done
      invariant db.categories == old(db.categories).(rows := MergeNames(snapshot, done))
      invariant db.purchases == old(db.purchases).(rows := RepointNames(purchases0, snapshot, done))
      invariant db.accounts == old(db.accounts) && db.periods == old(db.periods)
      decreases todo
    {
      NonEmptyHasName(todo);
      var n :| n in todo;
      MergeGroup(db, snapshot, purchases0, done, n);
      todo := todo - {n};
      done := done + {n};
    }
  }

  /** A category survives the merge exactly when it is the lowest id of its name; it keeps
      its name and period. */
  lemma {:induction false} MergedKeepsLowest(rows: map<int, Category>)
    ensures forall k :: k in Merged(rows) <==> k in rows && FindCategory(rows, rows[k].name) == Some(k)
    ensures forall k :: k in Merged(rows) ==> Merged(rows)[k].name == rows[k].name && Merged(rows)[k].period == rows[k].period
  {
    forall k | k in rows && rows[k].name !in DuplicateNames(rows)
      ensures FindCategory(rows, rows[k].name) == Some(k)
    {
      var n := rows[k].name;
      DuplicateNamesIff(rows, n);
      var f := FindCategory(rows, n).value;
      assert f == k;
    }
  }

  /** After the merge category names are unique. */
  lemma {:induction false} MergedNamesUnique(rows: map<int, Category>)
    ensures CategoryNamesUnique(Merged(rows))
  {
    MergedKeepsLowest(rows);
  }

  /** After the merge a name is held by its kept category alone, or by none when it was
      absent before. */
  lemma {:induction false} MergedNamed(rows: map<int, Category>, n: string)
    ensures var f := FindCategory(rows, n);
            CategoriesNamed(Merged(rows), n) == if f.Some? then {f.value} else {}
  {
    MergedKeepsLowest(rows);
  }

  /** The kept category of a name carries that name's summed amounts. */
  lemma {:induction false} MergedKeptAmounts(rows: map<int, Category>, n: string)
    requires FindCategory(rows, n).Some?
    ensures var keep := FindCategory(rows, n).value;
            keep in Merged(rows) && (Merged(rows)[keep].budgeted, Merged(rows)[keep].current) == NameTotals(rows, n)
  {
    MergedKeepsLowest(rows);
    var keep := FindCategory(rows, n).value;
    if n !in DuplicateNames(rows) {
      DuplicateNamesIff(rows, n);
      assert CategoriesNamed(rows, n) == {keep};
      SingletonTotals(rows, keep);
    }
  }

  /** The merge preserves, for every name, the summed budgeted and current amounts. */
  lemma {:induction false} MergedKeepsTotals(rows: map<int, Category>, n: string)
    ensures NameTotals(Merged(rows), n) == NameTotals(rows, n)
  {
    MergedNamed(rows, n);
    var f := FindCategory(rows, n);
    if f.Some? {
      MergedKeptAmounts(rows, n);
      SingletonTotals(Merged(rows), f.value);
    } else {
      assert CategoriesNamed(rows, n) == {};
    }
  }

  /** Every purchase filed under an existing category is afterwards filed under the kept
      category of the same name, so no purchase points at a deleted duplicate. */
  lemma {:induction false} RepointKeepsReferences(ps: map<int, Purchase>, rows: map<int, Category>)
    requires CategoryRefsValid(ps, rows)
    ensures var r := RepointNames(ps, rows, DuplicateNames(rows));
            CategoryRefsValid(r, Merged(rows)) &&
            forall i :: i in ps && ps[i].category.Some? ==>
              r[i].category.Some? && rows[r[i].category.value].name == rows[ps[i].category.value].name
  {
    MergedKeepsLowest(rows);
    var r := RepointNames(ps, rows, DuplicateNames(rows));
    forall i | i in ps && ps[i].category.Some?
      ensures r[i].category.Some? && r[i].category.value in Merged(rows)
      ensures rows[r[i].category.value].name == rows[ps[i].category.value].name
    {
      var c := ps[i].category.value;
      if rows[c].name !in DuplicateNames(rows) {
        assert FindCategory(rows, rows[c].name) == Some(c);
      }
    }
  }

  /** With no duplicate name the merge is the identity, as `fix_duplicates` returns early. */
  lemma {:induction false} NoDuplicatesNoChange(rows: map<int, Category>, ps: map<int, Purchase>)
    requires DuplicateNames(rows) == {}
    ensures Merged(rows) == rows && RepointNames(ps, rows, DuplicateNames(rows)) == ps
  {
    MergeNothing(rows, ps);
  }

  /** The error Python raises when `float()` is given a nested JSON object. */
  const NotANumber: string := "float() argument must be a string or a real number, not 'dict'"

  /** The name `ensure_config_categories` looks up for a top-level template entry. */
  function EntryName(e: EntryRef): string {
    OwnedName(e.owner, e.entry.category)
  }

  /** One entry: nothing when the name exists; otherwise insert it with budgeted and current
      both set to the amount. A nested amount cannot be converted and fails the run. */
  function EnsureEntry(t: Table<Category>, e: EntryRef): (r: Result<Table<Category>>)
    requires t.Valid()
    ensures r.Ok? ==> r.value.Valid()
  {
    var name := EntryName(e);
    if FindCategory(t.rows, name).Some? then Ok(t)
    else
      match e.entry.value
      case Leaf(a) => Ok(t.Insert(Category(name, a, a, None)))
      case Nested(_) => Err(NotANumber)
  }

  /** The entries in template order; the first failure ends the run. */
  function EnsureEntries(t: Table<Category>, es: seq<EntryRef>): (r: Result<Table<Category>>)
    requires t.Valid()
    ensures r.Ok? ==> r.value.Valid()
    decreases |es|
  {
    if |es| == 0 then Ok(t)
    else
      match EnsureEntries(t, es[..|es| - 1])
      case Err(m) => Err(m)
      case Ok(prev) => EnsureEntry(prev, es[|es| - 1])
  }

  /** A failure on a prefix of the entries is the failure of the whole run. */
  lemma {:induction false} EnsureErrSticky(t: Table<Category>, es: seq<EntryRef>, i: int)
    requires t.Valid() && 0 <= i <= |es| && EnsureEntries(t, es[..i]).Err?
    ensures EnsureEntries(t, es) == EnsureEntries(t, es[..i])
    decreases |es|
  {
    if i < |es| {
      var init := es[..|es| - 1];
      assert init[..i] == es[..i];
      EnsureErrSticky(t, init, i);
    } else {
      assert es[..i] == es;
    }
  }

  /** A successful run keeps every earlier category unchanged. */
  lemma {:induction false} EnsureEntriesKeeps(t: Table<Category>, es: seq<EntryRef>)
    requires t.Valid() && EnsureEntries(t, es).Ok?
    ensures var r := EnsureEntries(t, es).value;
            forall k :: k in t.rows ==> k in r.rows && r.rows[k] == t.rows[k]
    decreases |es|
  {
    if |es| > 0 {
      EnsureEntriesKeeps(t, es[..|es| - 1]);
    }
  }

  /** After a successful run the name of every entry is present. */
  lemma {:induction false} EnsureEntriesNames(t: Table<Category>, es: seq<EntryRef>)
    requires t.Valid() && EnsureEntries(t, es).Ok?
    ensures var r := EnsureEntries(t, es).value;
            forall j :: 0 <= j < |es| ==> FindCategory(r.rows, EntryName(es[j])).Some?
    decreases |es|
  {
    if |es| > 0 {
      var init := es[..|es| - 1];
      var e := es[|es| - 1];
      EnsureEntriesNames(t, init);
      var prev := EnsureEntries(t, init).value;
      var r := EnsureEntries(t, es).value;
      assert r == EnsureEntry(prev, e).value;
      forall j | 0 <= j < |es|
        ensures FindCategory(r.rows, EntryName(es[j])).Some?
      {
        if j < |init| {
          assert es[j] == init[j];
          var k := FindCategory(prev.rows, EntryName(init[j])).value;
          FindCategoryOf(r.rows, k);
        } else if FindCategory(prev.rows, EntryName(e)).Some? {
          var k := FindCategory(prev.rows, EntryName(e)).value;
          FindCategoryOf(r.rows, k);
        } else {
          FindCategoryOf(r.rows, prev.nextId);
        }
      }
    }
  }

  /** A successful run creates only categories named after a plain entry, with budgeted
      and current both set to its amount and no period. */
  lemma {:induction false} EnsureEntriesCreates(t: Table<Category>, es: seq<EntryRef>)
    requires t.Valid() && EnsureEntries(t, es).Ok?
    ensures var r := EnsureEntries(t, es).value;
            forall k :: k in r.rows && k !in t.rows ==>
              exists j :: 0 <= j < |es| && es[j].entry.value.Leaf? &&
                r.rows[k] == Category(EntryName(es[j]), es[j].entry.value.amount, es[j].entry.value.amount, None)
    decreases |es|
  {
    if |es| > 0 {
      var init := es[..|es| - 1];
      var e := es[|es| - 1];
      EnsureEntriesCreates(t, init);
      var prev := EnsureEntries(t, init).value;
      var r := EnsureEntries(t, es).value;
      assert r == EnsureEntry(prev, e).value;
      forall k | k in r.rows && k !in t.rows
        ensures exists j :: 0 <= j < |es| && es[j].entry.value.Leaf? &&
                  r.rows[k] == Category(EntryName(es[j]), es[j].entry.value.amount, es[j].entry.value.amount, None)
      {
        if k in prev.rows {
          var j :| 0 <= j < |init| && init[j].entry.value.Leaf? &&
                   prev.rows[k] == Category(EntryName(init[j]), init[j].entry.value.amount, init[j].entry.value.amount, None);
          assert es[j] == init[j];
        } else {
          assert es[|es| - 1] == e;
        }
      }
    }
  }

  /** The run fails only on a nested entry whose name was missing, and never when every
      entry is a plain amount. */
  lemma {:induction false} EnsureEntriesErr(t: Table<Category>, es: seq<EntryRef>)
    requires t.Valid()
    ensures EnsureEntries(t, es).Err? ==>
              EnsureEntries(t, es).message == NotANumber &&
              exists j :: 0 <= j < |es| && es[j].entry.value.Nested? && FindCategory(t.rows, EntryName(es[j])).None?
    ensures (forall j :: 0 <= j < |es| ==> es[j].entry.value.Leaf?) ==> EnsureEntries(t, es).Ok?
    decreases |es|
  {
    if |es| > 0 {
      var init := es[..|es| - 1];
      var e := es[|es| - 1];
      EnsureEntriesErr(t, init);
      if EnsureEntries(t, init).Err? {
        var j :| 0 <= j < |init| && init[j].entry.value.Nested? && FindCategory(t.rows, EntryName(init[j])).None?;
        assert es[j] == init[j];
      } else {
        EnsureEntriesKeeps(t, init);
        if EnsureEntries(t, es).Err? {
          var prev := EnsureEntries(t, init).value;
          assert FindCategory(prev.rows, EntryName(e)).None?;
          assert es[|es| - 1] == e;
        }
      }
    }
  }

  /** When every entry's name is already present the run changes nothing. */
  lemma {:induction false} EnsureAllPresent(t: Table<Category>, es: seq<EntryRef>)
    requires t.Valid()
    requires forall j :: 0 <= j < |es| ==> FindCategory(t.rows, EntryName(es[j])).Some?
    ensures EnsureEntries(t, es) == Ok(t)
    decreases |es|
  {
    if |es| > 0 {
      EnsureAllPresent(t, es[..|es| - 1]);
      assert FindCategory(t.rows, EntryName(es[|es| - 1])).Some?;
    }
  }

  /** Running the pass again after a successful run changes nothing. */
  lemma {:induction false} EnsureIdempotent(t: Table<Category>, es: seq<EntryRef>)
    requires t.Valid() && EnsureEntries(t, es).Ok?
    ensures EnsureEntries(EnsureEntries(t, es).value, es) == EnsureEntries(t, es)
  {
    EnsureEntriesNames(t, es);
    EnsureAllPresent(EnsureEntries(t, es).value, es);
  }

  /** `ensure_config_categories`: every top-level entry of the template whose
      "user - category" name is missing is inserted with budgeted and current set to its
      amount. A nested entry that is missing raises, and nothing is committed. */
  method EnsureConfigCategories(db: Store, budget: seq<OwnerBudget>) returns (r: Result<()>)
    requires db.Valid()
    modifies db
    ensures db.Valid()
    ensures var expected := EnsureEntries(old(db.categories), Entries(budget));
            if expected.Ok? then r == Ok(()) && db.categories == expected.value
            else r == Err(expected.message) && db.categories == old(db.categories)
    ensures db.accounts == old(db.accounts) && db.purchases == old(db.purchases) && db.periods == old(db.periods)
  {
    var es := Entries(budget);
    var t0 := db.categories;
    var i := 0;
    while i < |es|
      invariant 0 <= i <= |es|
      invariant EnsureEntries(t0, es[..i]) == Ok(db.categories)
      invariant db.accounts == old(db.accounts) && db.purchases == old(db.purchases) && db.periods == old(db.periods)
      invariant db.Valid()
    {
      assert es[..i + 1][..i] == es[..i];
      var e := es[i];
      var name := EntryName(e);
      if FindCategory(db.categories.rows, name).None? {
        match e.entry.value {
          case Leaf(a) =>
            db.categories := db.categories.Insert(Category(name, a, a, None));
          case Nested(_) =>
            EnsureErrSticky(t0, es, i + 1);
            db.categories := t0;
            return Err(NotANumber);
        }
      }
      i := i + 1;
    }
    assert es[..i] == es;
    return Ok(());
  }
}
