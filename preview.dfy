/** The read-only preview of next month's budget: the period it would create, and the
    category count, budget totals and income it would book, computed from the template. */
module Preview {
  import opened Common
  import opened Dates
  import opened Template

  datatype PeriodInfo = PeriodInfo(name: string, start: Date, end: Date)

  /** `get_next_month_info`: named after today plus one month, starting on the 24th of
      this month and ending on the last day of next month. */
  function NextMonthInfo(today: Date): PeriodInfo
    requires ValidDate(today) && today.year >= 1
  {
    var next := AddMonths(today, 1);
    var monthAfter := AddMonths(next, 1);
    PeriodInfo(MonthYearName(next), today.(day := 24), PrevDay(monthAfter.(day := 1)))
  }

  /** The name is next month's "%B %Y" whatever today's day; the start is the 24th of this
      month; the end is the last day of next month, after the start. */
  lemma {:induction false} NextMonthInfoSpec(today: Date)
    requires ValidDate(today) && today.year >= 1
    ensures var info := NextMonthInfo(today);
            var next := InMonth(MonthIndex(today) + 1, 1);
            info.name == MonthYearName(next) &&
            ValidDate(info.start) && MonthIndex(info.start) == MonthIndex(today) && info.start.day == 24 &&
            ValidDate(info.end) && MonthIndex(info.end) == MonthIndex(today) + 1 &&
            info.end.day == DaysInMonth(info.end.year, info.end.month) &&
            DateLe(info.start, info.end) && info.start != info.end
  {
    var info := NextMonthInfo(today);
    var next := InMonth(MonthIndex(today) + 1, 1);
    var shifted := AddMonths(today, 1);
    SameMonthIndex(shifted, next);
    var first := AddMonths(shifted, 1).(day := 1);
    assert MonthIndex(first) == MonthIndex(today) + 2;
    assert info.end == PrevDay(first);
    DateLeByIndex(info.start, info.end);
  }

  /** The amounts one category adds and how many categories it counts, as the preview's
      innermost loop accumulates them. */
  method EntryTotals(owner: string, e: CategoryEntry) returns (sum: int, count: nat)
    ensures sum == Total(EntryLines(owner, e)) && count == |EntryLines(owner, e)|
  {
    match e.value {
      case Leaf(a) =>
        assert EntryLines(owner, e)[..0] == [];
        sum, count := a, 1;
      case Nested(subs) =>
        var lines := EntryLines(owner, e);
        sum, count := 0, 0;
        var k := 0;
        while k < |subs|
          invariant 0 <= k <= |subs| && count == k
          invariant sum == Total(lines[..k])
        {
          assert lines[..k + 1][..k] == lines[..k];
          sum := sum + subs[k].amount;
          count := count + 1;
          k := k + 1;
        }
        assert lines[..k] == lines;
    }
  }

  /** One owner's subtotal and category count. */
  method OwnerTotals(b: OwnerBudget) returns (subtotal: int, count: nat)
    ensures subtotal == Total(OwnerLines(b)) && count == |OwnerLines(b)|
  {
    subtotal, count := 0, 0;
    var j := 0;
    while j < |b.entries|
      invariant 0 <= j <= |b.entries|
      invariant subtotal == Total(EntriesLines(b.owner, b.entries[..j]))
      invariant count == |EntriesLines(b.owner, b.entries[..j])|
    {
      assert b.entries[..j + 1][..j] == b.entries[..j];
      var s, c := EntryTotals(b.owner, b.entries[j]);
      TotalAppend(EntriesLines(b.owner, b.entries[..j]), EntryLines(b.owner, b.entries[j]));
      subtotal := subtotal + s;
      count := count + c;
      j := j + 1;
    }
    assert b.entries[..j] == b.entries;
  }

  function Sum(xs: seq<int>): int {
    if |xs| == 0 then 0 else Sum(xs[..|xs| - 1]) + xs[|xs| - 1]
  }

  /** One more owner appends that owner's leaves, and their total adds on. */
  lemma {:induction false} LeavesStep(budget: seq<OwnerBudget>, i: int)
    requires 0 <= i < |budget|
    ensures Leaves(budget[..i + 1]) == Leaves(budget[..i]) + OwnerLines(budget[i])
    ensures Total(Leaves(budget[..i + 1])) == Total(Leaves(budget[..i])) + Total(OwnerLines(budget[i]))
  {
    assert budget[..i + 1][..i] == budget[..i];
    TotalAppend(Leaves(budget[..i]), OwnerLines(budget[i]));
  }

  lemma {:induction false} SumSnoc(xs: seq<int>, x: int)
    ensures Sum(xs + [x]) == Sum(xs) + x
  {
    assert (xs + [x])[..|xs|] == xs;
  }

  /** The budget part of `preview_budget_population`: one subtotal per owner, the total
      budget, which is the sum of the subtotals and of every leaf amount, and the category
      count, one per plain category and one per nested sub-category. */
  method PreviewBudget(budget: seq<OwnerBudget>) returns (subtotals: seq<int>, total: int, count: nat)
    ensures |subtotals| == |budget| && forall i :: 0 <= i < |budget| ==> subtotals[i] == Total(OwnerLines(budget[i]))
    ensures total == Sum(subtotals) && total == Total(Leaves(budget))
    ensures count == |Leaves(budget)| && count == BudgetWeight(budget)
  {
    subtotals, total, count := [], 0, 0;
    var i := 0;
    while i < |budget|
      invariant 0 <= i <= |budget|
      invariant |subtotals| == i && forall j :: 0 <= j < i ==> subtotals[j] == Total(OwnerLines(budget[j]))
      invariant total == Sum(subtotals) && total == Total(Leaves(budget[..i]))
      invariant count == |Leaves(budget[..i])|
    {
      var s, c := OwnerTotals(budget[i]);
      LeavesStep(budget, i);
      SumSnoc(subtotals, s);
      subtotals := subtotals + [s];
      total := total + s;
      count := count + c;
      i := i + 1;
    }
    assert budget[..i] == budget;
    LeavesCount(budget);
  }

  /** The income part: only salaries above zero are added. */
  method PreviewIncome(income: seq<Salary>) returns (total: int)
    ensures total == PositiveSalaryTotal(income)
  {
    total := 0;
    var i := 0;
    while i < |income|
      invariant 0 <= i <= |income|
      invariant total == PositiveSalaryTotal(income[..i])
    {
      assert income[..i + 1][..i] == income[..i];
      if income[i].amount > 0 {
        total := total + income[i].amount;
      }
      i := i + 1;
    }
    assert income[..i] == income;
  }

  /** The previewed income is never negative and is at least every single positive salary. */
  lemma {:induction false} PositiveSalaryTotalBounds(income: seq<Salary>)
    ensures PositiveSalaryTotal(income) >= 0
    ensures forall i :: 0 <= i < |income| && income[i].amount > 0 ==> income[i].amount <= PositiveSalaryTotal(income)
    decreases |income|
  {
    if |income| > 0 {
      var init := income[..|income| - 1];
      PositiveSalaryTotalBounds(init);
      forall i | 0 <= i < |income| - 1 && income[i].amount > 0
        ensures income[i].amount <= PositiveSalaryTotal(income)
      {
        assert income[i] == init[i];
      }
    }
  }
}
