/** Calendar dates as Python's `datetime.date`, with the `relativedelta` and `timedelta`
    arithmetic and the `strftime("%B %Y")` rendering that the period scripts use. */
module Dates {
  import opened Common

  datatype Date = Date(year: int, month: int, day: int)

  predicate IsLeapYear(year: int) {
    year % 4 == 0 && (year % 100 != 0 || year % 400 == 0)
  }

  function DaysInMonth(year: int, month: int): (n: int)
    requires 1 <= month <= 12
    ensures 28 <= n <= 31
    ensures n == 29 <==> month == 2 && IsLeapYear(year)
  {
    if month == 2 then (if IsLeapYear(year) then 29 else 28)
    else if month == 4 || month == 6 || month == 9 || month == 11 then 30
    else 31
  }

  predicate ValidDate(d: Date) {
    1 <= d.month <= 12 && 1 <= d.day <= DaysInMonth(d.year, d.month)
  }

  /** Months counted from January of year 0: consecutive calendar months have
      consecutive indices. */
  function MonthIndex(d: Date): int {
    d.year * 12 + (d.month - 1)
  }

  /** Day `day` of the month whose index is `idx`. */
  function InMonth(idx: int, day: int): (d: Date)
    ensures MonthIndex(d) == idx && 1 <= d.month <= 12 && d.day == day
  {
    Date(idx / 12, idx % 12 + 1, day)
  }

  /** Two dates in the same month index are in the same year and month. */
  lemma {:induction false} SameMonthIndex(a: Date, b: Date)
    requires 1 <= a.month <= 12 && 1 <= b.month <= 12
    requires MonthIndex(a) == MonthIndex(b)
    ensures a.year == b.year && a.month == b.month
  {
  }

  /** `d + relativedelta(months=n)`: move `n` calendar months and clamp the day to the
      length of the month reached. */
  function AddMonths(d: Date, n: int): (r: Date)
    requires ValidDate(d)
    ensures ValidDate(r) && MonthIndex(r) == MonthIndex(d) + n
    ensures r.day <= d.day && (r.day == d.day || r.day == DaysInMonth(r.year, r.month))
  {
    var target := InMonth(MonthIndex(d) + n, 1);
    var last := DaysInMonth(target.year, target.month);
    target.(day := if d.day <= last then d.day else last)
  }

  /** `d - timedelta(days=1)`. */
  function PrevDay(d: Date): (r: Date)
    requires ValidDate(d)
    ensures ValidDate(r)
    ensures MonthIndex(r) == MonthIndex(d) || (MonthIndex(r) == MonthIndex(d) - 1 && d.day == 1)
  {
    if d.day > 1 then d.(day := d.day - 1)
    else
      var m := InMonth(MonthIndex(d) - 1, 1);
      m.(day := DaysInMonth(m.year, m.month))
  }

  /** `d + timedelta(days=1)`. */
  function NextDay(d: Date): (r: Date)
    requires ValidDate(d)
    ensures ValidDate(r)
  {
    if d.day < DaysInMonth(d.year, d.month) then d.(day := d.day + 1)
    else InMonth(MonthIndex(d) + 1, 1)
  }

  /** Stepping a day back and a day forward returns to the same date. */
  lemma {:induction false} NextDayOfPrevDay(d: Date)
    requires ValidDate(d)
    ensures NextDay(PrevDay(d)) == d
  {
    var p := PrevDay(d);
    if d.day == 1 {
      var n := NextDay(p);
      assert MonthIndex(n) == MonthIndex(d);
      SameMonthIndex(n, d);
    }
  }

  /** Stepping a day forward and a day back returns to the same date. */
  lemma {:induction false} PrevDayOfNextDay(d: Date)
    requires ValidDate(d)
    ensures PrevDay(NextDay(d)) == d
  {
    var n := NextDay(d);
    if d.day == DaysInMonth(d.year, d.month) {
      var p := PrevDay(n);
      assert MonthIndex(p) == MonthIndex(d);
      SameMonthIndex(p, d);
    }
  }

  /** Python's date comparison `a <= b`: by year, then month, then day. */
  predicate DateLe(a: Date, b: Date) {
    a.year < b.year || (a.year == b.year && (a.month < b.month || (a.month == b.month && a.day <= b.day)))
  }

  /** For real months the calendar order is the order of (month index, day). */
  lemma {:induction false} DateLeByIndex(a: Date, b: Date)
    requires 1 <= a.month <= 12 && 1 <= b.month <= 12
    ensures DateLe(a, b) <==> MonthIndex(a) < MonthIndex(b) || (MonthIndex(a) == MonthIndex(b) && a.day <= b.day)
  {
    if MonthIndex(a) == MonthIndex(b) {
      SameMonthIndex(a, b);
    }
  }

  /** Letters only: no space and no digit. */
  predicate IsWord(s: string) {
    |s| > 0 && forall j :: 0 <= j < |s| ==> s[j] != ' ' && !IsDigit(s[j])
  }

  /** strftime's `%B` in the C locale. */
  function MonthName(month: int): (r: string)
    requires 1 <= month <= 12
    ensures IsWord(r)
  {
    ["January", "February", "March", "April", "May", "June", "July", "August",
     "September", "October", "November", "December"][month - 1]
  }

  lemma {:induction false} MonthNameInjective(a: int, b: int)
    requires 1 <= a <= 12 && 1 <= b <= 12
    requires MonthName(a) == MonthName(b)
    ensures a == b
  {
  }

  /** strftime("%B %Y"), e.g. "August 2025"; the year is written without padding. */
  function MonthYearName(d: Date): string
    requires 1 <= d.month <= 12 && d.year >= 0
  {
    MonthName(d.month) + " " + NatToString(d.year)
  }

  /** The rendered name determines the month and the year. */
  lemma {:induction false} MonthYearNameInjective(a: Date, b: Date)
    requires 1 <= a.month <= 12 && a.year >= 0
    requires 1 <= b.month <= 12 && b.year >= 0
    requires MonthYearName(a) == MonthYearName(b)
    ensures a.month == b.month && a.year == b.year
  {
    var s := MonthYearName(a);
    var na, nb := MonthName(a.month), MonthName(b.month);
    assert s == na + " " + NatToString(a.year);
    assert s == nb + " " + NatToString(b.year);
    assert s[|na|] == ' ' && s[|nb|] == ' ';
    assert na == s[..|na|] == nb;
    MonthNameInjective(a.month, b.month);
    assert NatToString(a.year) == s[|na| + 1..] == NatToString(b.year);
    NatToStringInjective(a.year, b.year);
  }
}
