/** The period repair script: find the active period by walking the periods in start-date
    order, then file every category that has no period under it. */
module PeriodAssign {
  import opened Common
  import opened Dates
  import opened Ledger
  import opened Migration


  /** The ids of `SELECT … FROM budget_periods ORDER BY start_date`: every period once, in
      non-decreasing start date. */
  predicate StartOrder(rows: map<int, Period>, order: seq<int>) {
    (forall i :: 0 <= i < |order| ==> order[i] in rows) &&
    (forall k :: k in rows ==> k in order) &&
    (forall i, j :: 0 <= i < j < |order| ==> order[i] != order[j] && DateLe(rows[order[i]].start, rows[order[j]].start))
  }

  /** The last active period of the walk, or None. */
  function LastActive(rows: map<int, Period>, order: seq<int>): Option<int>
    requires forall i :: 0 <= i < |order| ==> order[i] in rows
    decreases |order|
  {
    if |order| == 0 then None
    else if rows[order[|order| - 1]].active then Some(order[|order| - 1])
    else LastActive(rows, order[..|order| - 1])
  }

  /** The walk's result is an active period that no active period follows, and it is None
      exactly when no period of the walk is active. */
  lemma {:induction false} LastActiveSpec(rows: map<int, Period>, order: seq<int>)
    requires forall i :: 0 <= i < |order| ==> order[i] in rows
    ensures LastActive(rows, order).None? <==> forall i :: 0 <= i < |order| ==> !rows[order[i]].active
    ensures LastActive(rows, order).Some? ==>
              exists j :: 0 <= j < |order| && order[j] == LastActive(rows, order).value &&
                rows[order[j]].active && forall i :: j < i < |order| ==> !rows[order[i]].active
    decreases |order|
  {
    if |order| > 0 && !rows[order[|order| - 1]].active {
      var init := order[..|order| - 1];
      LastActiveSpec(rows, init);
      if LastActive(rows, init).Some? {
        var j :| 0 <= j < |init| && init[j] == LastActive(rows, init).value &&
                 rows[init[j]].active && forall i :: j < i < |init| ==> !rows[init[i]].active;
        assert order[j] == init[j];
        assert forall i :: j < i < |order| - 1 ==> order[i] == init[i];
      } else {
        assert forall i :: 0 <= i < |order| - 1 ==> order[i] == init[i];
      }
    }
  }

  /** In start order, the reported period starts no earlier than any active period; it is
      None exactly when no period is active. */
  lemma {:induction false} ActivePickIsLatest(rows: map<int, Period>, order: seq<int>)
    requires StartOrder(rows, order)
    ensures LastActive(rows, order).None? <==> ActivePeriodIds(rows) == {}
    ensures LastActive(rows, order).Some? ==>
              LastActive(rows, order).value in ActivePeriodIds(rows) &&
              forall k :: k in ActivePeriodIds(rows) ==> DateLe(rows[k].start, rows[LastActive(rows, order).value].start)
  {
    LastActiveSpec(rows, order);
    if LastActive(rows, order).None? {
      forall k | k in rows
        ensures !rows[k].active
      {
        var i :| 0 <= i < |order| && order[i] == k;
      }
    } else {
      var j :| 0 <= j < |order| && order[j] == LastActive(rows, order).value &&
               rows[order[j]].active && forall i :: j < i < |order| ==> !rows[order[i]].active;
      forall k | k in ActivePeriodIds(rows)
        ensures DateLe(rows[k].start, rows[order[j]].start)
      {
        var i :| 0 <= i < |order| && order[i] == k;
        if i == j {
          assert k == order[j];
        }
      }
    }
  }

  /** With a single active period, as the migration and the period switch leave it, the
      walk reports that period. */
  lemma {:induction false} SingleActivePicked(rows: map<int, Period>, order: seq<int>, p: int)
    requires StartOrder(rows, order) && ActivePeriodIds(rows) == {p}
    ensures LastActive(rows, order) == Some(p)
  {
    ActivePickIsLatest(rows, order);
  }

  /** The loop of `check_periods_and_assignments` over the periods in start order: the
      last active period seen wins. */
  method FindActivePeriod(db: Store, order: seq<int>) returns (active: Option<int>)
    requires StartOrder(db.periods.rows, order)
    ensures active == LastActive(db.periods.rows, order)
  {
    active := None;
    var i := 0;
    while i < |order|
      invariant 0 <= i <= |order|
      invariant active == LastActive(db.periods.rows, order[..i])
    {
      assert order[..i + 1][..i] == order[..i];
      if db.periods.rows[order[i]].active {
        active := Some(order[i]);
      }
      i := i + 1;
    }
    assert order[..i] == order;
  }

  /** Filing every NULL-period category under `pid` keeps `(name, period_id)` unique: no
      NULL-period category shares its name with another NULL-period category or with a
      category already filed under `pid`. */
  predicate AssignClashFree(rows: map<int, Category>, pid: int) {
    forall i, j :: i in rows && j in rows && i != j && rows[i].period.None? && rows[i].name == rows[j].name ==>
      rows[j].period.Some? && rows[j].period.value != pid
  }

  /** On a table that keeps the `UNIQUE (name, period_id)` constraint, the UPDATE keeps it
      exactly when no two categories would meet under the same name in `pid`. */
  lemma {:induction false} AssignKeepsKeysUniqueIff(rows: map<int, Category>, pid: int)
    requires CategoryKeysUnique(rows)
    ensures CategoryKeysUnique(AssignNullPeriod(rows, pid)) <==> AssignClashFree(rows, pid)
  {
    var r := AssignNullPeriod(rows, pid);
    if !AssignClashFree(rows, pid) {
      var i, j :| i in rows && j in rows && i != j && rows[i].period.None? && rows[i].name == rows[j].name &&
                  !(rows[j].period.Some? && rows[j].period.value != pid);
      assert r[i].period == Some(pid) == r[j].period;
      assert r[i].name == r[j].name;
    } else {
      forall i, j | i in r && j in r && r[i].period.Some? && r[i].name == r[j].name && r[i].period == r[j].period
        ensures i == j
      {
        if rows[i].period.Some? && rows[j].period.Some? {
          assert rows[i].name == rows[j].name && rows[i].period == rows[j].period;
        }
      }
    }
  }

  /** `fix_period_assignments`: without an active period nothing changes and there is no
      count. Otherwise every category with a NULL period is filed under it and the count
      is how many there were, unless that would put two categories of one name in the
      period: the UNIQUE constraint then refuses the UPDATE, the script reports the error
      and nothing is committed. The active id is one the walk over the period table
      returned, so it names a period. */
  method FixPeriodAssignments(db: Store, active: Option<int>) returns (updated: Result<Option<nat>>)
    requires db.Valid() && CategoryKeysUnique(db.categories.rows)
    requires Truthy(active) ==> active.value in db.periods.rows
    modifies db
    ensures db.Valid() && CategoryKeysUnique(db.categories.rows)
    ensures !Truthy(active) ==> updated == Ok(None) && unchanged(db)
    ensures Truthy(active) && !AssignClashFree(old(db.categories.rows), active.value) ==>
              updated == Err(DuplicateCategoryKey) && unchanged(db)
    ensures Truthy(active) && AssignClashFree(old(db.categories.rows), active.value) ==>
              updated == Ok(Some(|NullPeriodCategories(old(db.categories.rows))|)) &&
              db.categories == old(db.categories).(rows := AssignNullPeriod(old(db.categories.rows), active.value))
    ensures db.accounts == old(db.accounts) && db.purchases == old(db.purchases) && db.periods == old(db.periods)
  {
    if !Truthy(active) {
      return Ok(None);
    }
    var filed := AssignNullPeriod(db.categories.rows, active.value);
    AssignKeepsKeysUniqueIff(db.categories.rows, active.value);
    if !CategoryKeysUnique(filed) {
      return Err(DuplicateCategoryKey);
    }
    var count := |NullPeriodCategories(db.categories.rows)|;
    db.categories := db.categories.(rows := filed);
    return Ok(Some(count));
  }
}
