/** The `settings.json` budget template every population script reads: per owner, a list of
    categories whose value is either an amount or a nested list of sub-amounts, plus the
    monthly salaries and the configured bank-account types. JSON objects keep their key
    order, so every dictionary here is a sequence in file order. */
module Template {
  import opened Common

  datatype SubAmount = SubAmount(sub: string, amount: int)

  /** A category's value: a plain amount, or a JSON object of sub-category amounts. */
  datatype Amount = Leaf(amount: int) | Nested(subs: seq<SubAmount>)

  datatype CategoryEntry = CategoryEntry(category: string, value: Amount)

  datatype OwnerBudget = OwnerBudget(owner: string, entries: seq<CategoryEntry>)

  datatype Salary = Salary(owner: string, amount: int)

  datatype OwnerAccounts = OwnerAccounts(owner: string, accountTypes: seq<string>)

  /** The three keys the scripts read: "bank_accounts", "budget_categories" and "Income". */
  datatype Settings = Settings(bankAccounts: seq<OwnerAccounts>, budget: seq<OwnerBudget>, income: seq<Salary>)

  /** One leaf of the template: the category name it produces and its amount. */
  datatype Line = Line(name: string, amount: int)

  /** One top-level category of one owner, before nested values are expanded. */
  datatype EntryRef = EntryRef(owner: string, entry: CategoryEntry)

  /** The naming rule `f"{user} - {item}"` shared by categories and accounts. */
  function OwnedName(owner: string, item: string): string {
    owner + " - " + item
  }

  /** The naming rule `f"{user} - {category} - {sub_category}"`. */
  function SubName(owner: string, item: string, sub: string): string {
    OwnedName(owner, item) + " - " + sub
  }

  /** The leaves a single category contributes, sub-categories in their key order. */
  function EntryLines(owner: string, e: CategoryEntry): seq<Line> {
    match e.value
    case Leaf(a) => [Line(OwnedName(owner, e.category), a)]
    case Nested(subs) =>
      seq(|subs|, i requires 0 <= i < |subs| => Line(SubName(owner, e.category, subs[i].sub), subs[i].amount))
  }

  function EntriesLines(owner: string, es: seq<CategoryEntry>): seq<Line> {
    if |es| == 0 then [] else EntriesLines(owner, es[..|es| - 1]) + EntryLines(owner, es[|es| - 1])
  }

  function OwnerLines(b: OwnerBudget): seq<Line> {
    EntriesLines(b.owner, b.entries)
  }

  /** Every leaf of the template in the order the nested loops of the scripts visit them. */
  function Leaves(budget: seq<OwnerBudget>): seq<Line> {
    if |budget| == 0 then [] else Leaves(budget[..|budget| - 1]) + OwnerLines(budget[|budget| - 1])
  }

  /** Every top-level category of every owner, in visiting order. */
  function Entries(budget: seq<OwnerBudget>): seq<EntryRef> {
    if |budget| == 0 then []
    else
      var b := budget[|budget| - 1];
      Entries(budget[..|budget| - 1]) + seq(|b.entries|, i requires 0 <= i < |b.entries| => EntryRef(b.owner, b.entries[i]))
  }

  /** The account names `f"{user} - {account_type}"` configured under "bank_accounts". */
  function AccountNames(accounts: seq<OwnerAccounts>): seq<string> {
    if |accounts| == 0 then []
    else
      var a := accounts[|accounts| - 1];
      AccountNames(accounts[..|accounts| - 1]) + seq(|a.accountTypes|, i requires 0 <= i < |a.accountTypes| => OwnedName(a.owner, a.accountTypes[i]))
  }

  function Total(lines: seq<Line>): int {
    if |lines| == 0 then 0 else Total(lines[..|lines| - 1]) + lines[|lines| - 1].amount
  }

  /** How many categories one entry yields: one for an amount, one per sub-amount otherwise. */
  function EntryWeight(e: CategoryEntry): nat {
    match e.value
    case Leaf(_) => 1
    case Nested(subs) => |subs|
  }

  function EntriesWeight(es: seq<CategoryEntry>): nat {
    if |es| == 0 then 0 else EntriesWeight(es[..|es| - 1]) + EntryWeight(es[|es| - 1])
  }

  function BudgetWeight(budget: seq<OwnerBudget>): nat {
    if |budget| == 0 then 0 else BudgetWeight(budget[..|budget| - 1]) + EntriesWeight(budget[|budget| - 1].entries)
  }

  /** Sum of the salaries that are greater than zero, the only ones any script deposits. */
  function PositiveSalaryTotal(income: seq<Salary>): int {
    if |income| == 0 then 0
    else PositiveSalaryTotal(income[..|income| - 1]) + (if income[|income| - 1].amount > 0 then income[|income| - 1].amount else 0)
  }

  /** `income.get(owner, 0)`: the salary listed for `owner`, or 0. */
  function SalaryOf(income: seq<Salary>, owner: string): int {
    if |income| == 0 then 0
    else if income[0].owner == owner then income[0].amount
    else SalaryOf(income[1..], owner)
  }

  /** The sum of a concatenation is the sum of the parts. */
  lemma {:induction false} TotalAppend(a: seq<Line>, b: seq<Line>)
    ensures Total(a + b) == Total(a) + Total(b)
    decreases |b|
  {
    if |b| > 0 {
      assert (a + b)[..|a + b| - 1] == a + b[..|b| - 1];
      TotalAppend(a, b[..|b| - 1]);
    } else {
      assert a + b == a;
    }
  }

  /** A category yields as many leaves as its weight says. */
  lemma {:induction false} EntryLinesCount(owner: string, e: CategoryEntry)
    ensures |EntryLines(owner, e)| == EntryWeight(e)
  {
  }

  /** The template has one leaf per plain category and one per nested sub-category. */
  lemma {:induction false} LeavesCount(budget: seq<OwnerBudget>)
    ensures |Leaves(budget)| == BudgetWeight(budget)
    decreases |budget|
  {
    if |budget| > 0 {
      LeavesCount(budget[..|budget| - 1]);
      var b := budget[|budget| - 1];
      EntriesLinesCount(b.owner, b.entries);
    }
  }

  lemma {:induction false} EntriesLinesCount(owner: string, es: seq<CategoryEntry>)
    ensures |EntriesLines(owner, es)| == EntriesWeight(es)
    decreases |es|
  {
    if |es| > 0 {
      EntriesLinesCount(owner, es[..|es| - 1]);
      EntryLinesCount(owner, es[|es| - 1]);
    }
  }

  /** `name` is what entry `e` of `owner` produces: "owner - category", or
      "owner - category - sub" for one of its sub-categories. */
  ghost predicate EntryNames(owner: string, e: CategoryEntry, name: string) {
    name == OwnedName(owner, e.category) ||
    (e.value.Nested? && exists s :: s in e.value.subs && name == SubName(owner, e.category, s.sub))
  }

  /** A leaf name is always "owner - category" or "owner - category - sub" for some
      owner and category of the template. */
  lemma {:induction false} LeafNames(budget: seq<OwnerBudget>, j: int)
    requires 0 <= j < |Leaves(budget)|
    ensures exists b, e :: b in budget && e in b.entries && EntryNames(b.owner, e, Leaves(budget)[j].name)
    decreases |budget|
  {
    var init := budget[..|budget| - 1];
    var b := budget[|budget| - 1];
    if j < |Leaves(init)| {
      LeafNames(init, j);
      assert Leaves(budget)[j] == Leaves(init)[j];
      var b', e' :| b' in init && e' in b'.entries && EntryNames(b'.owner, e', Leaves(init)[j].name);
      assert b' in budget;
    } else {
      var k := j - |Leaves(init)|;
      EntriesLeafNames(b.owner, b.entries, k);
      assert Leaves(budget)[j] == OwnerLines(b)[k];
      var e :| e in b.entries && EntryNames(b.owner, e, EntriesLines(b.owner, b.entries)[k].name);
      assert b in budget;
    }
  }

  lemma {:induction false} EntriesLeafNames(owner: string, es: seq<CategoryEntry>, j: int)
    requires 0 <= j < |EntriesLines(owner, es)|
    ensures exists e :: e in es && EntryNames(owner, e, EntriesLines(owner, es)[j].name)
    decreases |es|
  {
    var init := es[..|es| - 1];
    var e := es[|es| - 1];
    if j < |EntriesLines(owner, init)| {
      EntriesLeafNames(owner, init, j);
      assert EntriesLines(owner, es)[j] == EntriesLines(owner, init)[j];
      var e' :| e' in init && EntryNames(owner, e', EntriesLines(owner, init)[j].name);
      assert e' in es;
    } else {
      var k := j - |EntriesLines(owner, init)|;
      assert EntriesLines(owner, es)[j] == EntryLines(owner, e)[k];
      match e.value {
        case Leaf(_) =>
        case Nested(subs) =>
          assert subs[k] in e.value.subs;
      }
      assert EntryNames(owner, e, EntriesLines(owner, es)[j].name);
    }
  }
}
