/** The desktop client's local copy of the purchases and the figures it derives from them:
    the sync that replaces the local table, the overview (month total, days with purchases,
    top category, recent rows), the analysis breakdowns and the category filter. */
module Desktop {
  import opened Common

  /** A local purchase row as the client means to read it: the category it indexes as
      `p[3]`, the description as `p[4]` and the date string as `p[5]`. The figures below
      are taken over these rows, that is over the columns read by name (`ReadByName`);
      what the positional read of `SELECT *` actually yields is `ReadBackAsWritten`.
      Amounts are in cents. */
  datatype Row = Row(id: int, user: string, amount: int, category: Option<string>,
                     description: Option<string>, date: string)

  /** `p[3] or "Other"`: a missing or empty category is shown as "Other". */
  function CategoryLabel(r: Row): string {
    if r.category.None? || r.category.value == "" then "Other" else r.category.value
  }

  function UserOf(r: Row): string {
    r.user
  }

  /** Python's `s[:n]`. */
  function Prefix(s: string, n: nat): string {
    if |s| <= n then s else s[..n]
  }

  /** `p[5][:10]`, the day of a purchase. */
  function DayOf(r: Row): string {
    Prefix(r.date, 10)
  }

  function MonthOf(r: Row): string {
    Prefix(r.date, 7)
  }

  predicate IdsDistinct(rows: seq<Row>) {
    forall i, j :: 0 <= i < j < |rows| ==> rows[i].id != rows[j].id
  }

  function IdsOf(rows: seq<Row>): set<int> {
    if |rows| == 0 then {} else IdsOf(rows[..|rows| - 1]) + {rows[|rows| - 1].id}
  }

  lemma {:induction false} IdsOfSpec(rows: seq<Row>)
    ensures forall id :: id in IdsOf(rows) <==> exists i :: 0 <= i < |rows| && rows[i].id == id
    decreases |rows|
  {
    if |rows| > 0 {
      var init := rows[..|rows| - 1];
      IdsOfSpec(init);
      assert forall i :: 0 <= i < |init| ==> rows[i] == init[i];
    }
  }

  /** Lexicographic order on strings, as SQLite compares TEXT dates. */
  predicate StrLe(a: string, b: string)
    decreases |a|
  {
    |a| == 0 || (|b| > 0 && (a[0] < b[0] || (a[0] == b[0] && StrLe(a[1..], b[1..]))))
  }

  /** `ORDER BY date DESC`. */
  predicate DateDescending(rows: seq<Row>) {
    forall i, j :: 0 <= i < j < |rows| ==> StrLe(rows[j].date, rows[i].date)
  }

  /** The local SQLite table and the list the window shows. */
  class LocalDb {
    var table: map<int, Row>
    var purchases: seq<Row>

    constructor ()
      ensures table == map[] && purchases == []
    {
      table := map[];
      purchases := [];
    }

    /** `update_local_db`: delete every row, insert the server's rows with their own ids,
        commit. A repeated id fails the insert before the commit, so the table keeps its
        old contents; otherwise the table holds exactly the server's rows. */
    method UpdateLocalDb(server: seq<Row>) returns (ok: bool)
      modifies this
      ensures ok <==> IdsDistinct(server)
      ensures ok ==> table.Keys == IdsOf(server) && |table| == |server| &&
                     forall i :: 0 <= i < |server| ==> server[i].id in table && table[server[i].id] == server[i]
      ensures !ok ==> table == old(table)
      ensures purchases == old(purchases)
    {
      var saved := table;
      table := map[];
      var i := 0;
      while i < |server|
        invariant 0 <= i <= |server| && purchases == old(purchases)
        invariant table.Keys == IdsOf(server[..i]) && |table| == i
        invariant forall j :: 0 <= j < i ==> server[j].id in table && table[server[j].id] == server[j]
        invariant IdsDistinct(server[..i])
      {
        if server[i].id in table {
          RepeatedId(server, i);
          table := saved;
          return false;
        }
        FreshId(server, i);
        var t := table[server[i].id := server[i]];
        forall j | 0 <= j < i + 1
          ensures server[j].id in t && t[server[j].id] == server[j]
        {
          if j < i {
            assert server[j].id != server[i].id;
          }
        }
        table := t;
        i := i + 1;
      }
      assert server[..i] == server;
      return true;
    }

    /** `load_data`: the window's list is the table read back newest first; the order
        SQLite returns is the parameter. */
    method LoadData(ordered: seq<Row>)
      requires IdsDistinct(ordered) && DateDescending(ordered) && |ordered| == |table|
      requires forall i :: 0 <= i < |ordered| ==> ordered[i].id in table && table[ordered[i].id] == ordered[i]
      modifies this
      ensures purchases == ordered && table == old(table)
    {
      purchases := ordered;
    }
  }

  /** A row whose id an earlier row already has makes the list's ids not distinct. */
  lemma {:induction false} RepeatedId(server: seq<Row>, i: int)
    requires 0 <= i < |server| && server[i].id in IdsOf(server[..i])
    ensures !IdsDistinct(server)
  {
    IdsOfSpec(server[..i]);
    var j :| 0 <= j < i && server[..i][j].id == server[i].id;
    assert server[j].id == server[i].id;
  }

  lemma {:induction false} FreshId(server: seq<Row>, i: int)
    requires 0 <= i < |server| && server[i].id !in IdsOf(server[..i]) && IdsDistinct(server[..i])
    ensures IdsOf(server[..i + 1]) == IdsOf(server[..i]) + {server[i].id}
    ensures IdsDistinct(server[..i + 1])
    ensures forall j :: 0 <= j < i ==> server[j].id != server[i].id
  {
    assert server[..i + 1][..i] == server[..i];
    IdsOfSpec(server[..i]);
    forall j | 0 <= j < i
      ensures server[j].id != server[i].id
    {
      assert server[..i][j] == server[j];
    }
  }

  /** `sum(p[2] for p in purchases)`. */
  function TotalAmount(ps: seq<Row>): int {
    if |ps| == 0 then 0 else TotalAmount(ps[..|ps| - 1]) + ps[|ps| - 1].amount
  }

  /** The amount of the rows whose key is `k`. */
  function KeyTotal(ps: seq<Row>, key: Row -> string, k: string): int {
    if |ps| == 0 then 0
    else KeyTotal(ps[..|ps| - 1], key, k) + (if key(ps[|ps| - 1]) == k then ps[|ps| - 1].amount else 0)
  }

  /** The keys that occur. */
  function KeysOf(ps: seq<Row>, key: Row -> string): set<string> {
    if |ps| == 0 then {} else KeysOf(ps[..|ps| - 1], key) + {key(ps[|ps| - 1])}
  }

  /** `sum(p[2] for p in purchases if p[5].startswith(current_month))`. */
  function MonthTotal(ps: seq<Row>, month: string): int {
    if |ps| == 0 then 0
    else MonthTotal(ps[..|ps| - 1], month) + (if StartsWith(ps[|ps| - 1].date, month) then ps[|ps| - 1].amount else 0)
  }

  /** `set(p[5][:10] for p in purchases)`. */
  function DaysOf(ps: seq<Row>): set<string> {
    KeysOf(ps, DayOf)
  }

  /** `purchases[:10]`. */
  function Recent(ps: seq<Row>): seq<Row> {
    if |ps| <= 10 then ps else ps[..10]
  }

  /** `[p for p in purchases if p[3] == selected]`. */
  function Matching(ps: seq<Row>, selected: string): seq<Row> {
    if |ps| == 0 then []
    else Matching(ps[..|ps| - 1], selected) + (if ps[|ps| - 1].category == Some(selected) then [ps[|ps| - 1]] else [])
  }

  /** The positions `Matching` keeps. */
  function MatchingIndices(ps: seq<Row>, selected: string): seq<int> {
    if |ps| == 0 then []
    else MatchingIndices(ps[..|ps| - 1], selected) + (if ps[|ps| - 1].category == Some(selected) then [|ps| - 1] else [])
  }

  /** `filter_transactions`. */
  function FilterTransactions(ps: seq<Row>, selected: string): seq<Row> {
    if selected == "All" then ps else Matching(ps, selected)
  }

  lemma {:induction false} MatchingSpec(ps: seq<Row>, selected: string)
    ensures var r := Matching(ps, selected);
            var idx := MatchingIndices(ps, selected);
            |r| == |idx| &&
            (forall j :: 0 <= j < |idx| ==> 0 <= idx[j] < |ps| && r[j] == ps[idx[j]] && r[j].category == Some(selected)) &&
            (forall j, l :: 0 <= j < l < |idx| ==> idx[j] < idx[l]) &&
            (forall i :: 0 <= i < |ps| && ps[i].category == Some(selected) ==> i in idx)
  {
    MatchingIndicesSpec(ps, selected);
    MatchingAt(ps, selected);
  }

  /** The kept positions are in range, increasing, hold the selected category, and include
      every position that does. */
  lemma {:induction false} MatchingIndicesSpec(ps: seq<Row>, selected: string)
    ensures var idx := MatchingIndices(ps, selected);
            (forall j :: 0 <= j < |idx| ==> 0 <= idx[j] < |ps| && ps[idx[j]].category == Some(selected)) &&
            (forall j, l :: 0 <= j < l < |idx| ==> idx[j] < idx[l]) &&
            (forall i :: 0 <= i < |ps| && ps[i].category == Some(selected) ==> i in idx)
  {
    MatchingIndicesSound(ps, selected);
    MatchingIndicesComplete(ps, selected);
  }

  lemma {:induction false} MatchingIndicesSound(ps: seq<Row>, selected: string)
    ensures forall j :: 0 <= j < |MatchingIndices(ps, selected)| ==>
              0 <= MatchingIndices(ps, selected)[j] < |ps| && ps[MatchingIndices(ps, selected)[j]].category == Some(selected)
    ensures forall j, l :: 0 <= j < l < |MatchingIndices(ps, selected)| ==> MatchingIndices(ps, selected)[j] < MatchingIndices(ps, selected)[l]
    decreases |ps|
  {
    if |ps| > 0 {
      var init := ps[..|ps| - 1];
      MatchingIndicesSound(init, selected);
    }
  }

  lemma {:induction false} MatchingIndicesComplete(ps: seq<Row>, selected: string)
    ensures forall i :: 0 <= i < |ps| && ps[i].category == Some(selected) ==> i in MatchingIndices(ps, selected)
    decreases |ps|
  {
    if |ps| > 0 {
      var init := ps[..|ps| - 1];
      MatchingIndicesComplete(init, selected);
      forall i | 0 <= i < |init| && ps[i].category == Some(selected)
        ensures i in MatchingIndices(ps, selected)
      {
        assert ps[i] == init[i];
      }
    }
  }

  /** The `j`-th row kept is the row at the `j`-th kept position. */
  lemma {:induction false} MatchingAt(ps: seq<Row>, selected: string)
    ensures var r := Matching(ps, selected);
            var idx := MatchingIndices(ps, selected);
            |r| == |idx| && forall j :: 0 <= j < |idx| ==> 0 <= idx[j] < |ps| && r[j] == ps[idx[j]]
    decreases |ps|
  {
    if |ps| > 0 {
      var init := ps[..|ps| - 1];
      MatchingAt(init, selected);
      var idx0 := MatchingIndices(init, selected);
      forall j | 0 <= j < |idx0| ensures ps[idx0[j]] == init[idx0[j]] {
      }
    }
  }

  /** With "All" every row is listed in its order; any other choice lists exactly the rows
      whose category equals it, in their original order. */
  lemma {:induction false} FilterSpec(ps: seq<Row>, selected: string)
    ensures selected == "All" ==> FilterTransactions(ps, selected) == ps
    ensures selected != "All" ==>
              var r := FilterTransactions(ps, selected);
              var idx := MatchingIndices(ps, selected);
              |r| == |idx| &&
              (forall j :: 0 <= j < |idx| ==> 0 <= idx[j] < |ps| && r[j] == ps[idx[j]] && r[j].category == Some(selected)) &&
              (forall j, l :: 0 <= j < l < |idx| ==> idx[j] < idx[l]) &&
              (forall i :: 0 <= i < |ps| && ps[i].category == Some(selected) ==> i in idx)
  {
    MatchingSpec(ps, selected);
  }

  lemma {:induction false} KeyTotalAppend(u: seq<Row>, v: seq<Row>, key: Row -> string, k: string)
    ensures KeyTotal(u + v, key, k) == KeyTotal(u, key, k) + KeyTotal(v, key, k)
    decreases |v|
  {
    if |v| == 0 {
      assert u + v == u;
    } else {
      assert (u + v)[..|u + v| - 1] == u + v[..|v| - 1];
      KeyTotalAppend(u, v[..|v| - 1], key, k);
    }
  }

  /** Taking one row out of a list takes its amount out of the key total. */
  lemma {:induction false} KeyTotalRemove(b: seq<Row>, i: int, key: Row -> string, k: string)
    requires 0 <= i < |b|
    ensures multiset(b[..i] + b[i + 1..]) == multiset(b) - multiset{b[i]}
    ensures KeyTotal(b, key, k) == KeyTotal(b[..i] + b[i + 1..], key, k) + (if key(b[i]) == k then b[i].amount else 0)
  {
    var x, u, v := b[i], b[..i], b[i + 1..];
    assert b == u + ([x] + v);
    assert multiset(b) == multiset(u) + multiset{x} + multiset(v);
    assert [x][..0] == [];
    calc {
      KeyTotal(b, key, k);
      KeyTotal(u + ([x] + v), key, k);
      { KeyTotalAppend(u, [x] + v, key, k); }
      KeyTotal(u, key, k) + KeyTotal([x] + v, key, k);
      { KeyTotalAppend([x], v, key, k); }
      KeyTotal(u, key, k) + KeyTotal([x], key, k) + KeyTotal(v, key, k);
      { KeyTotalAppend(u, v, key, k); }
      KeyTotal(u + v, key, k) + KeyTotal([x], key, k);
      KeyTotal(u + v, key, k) + KeyTotal([], key, k) + (if key(x) == k then x.amount else 0);
    }
  }

  /** A key total does not depend on the order SQLite returned the rows in. */
  lemma {:induction false} KeyTotalPermutation(a: seq<Row>, b: seq<Row>, key: Row -> string, k: string)
    requires multiset(a) == multiset(b)
    ensures KeyTotal(a, key, k) == KeyTotal(b, key, k)
    decreases |a|
  {
    if |a| > 0 {
      var x := a[|a| - 1];
      var init := a[..|a| - 1];
      assert a == init + [x];
      assert x in multiset(b);
      var i :| 0 <= i < |b| && b[i] == x;
      KeyTotalRemove(b, i, key, k);
      KeyTotalPermutation(init, b[..i] + b[i + 1..], key, k);
    } else {
      assert b == [];
    }
  }

  /** The month figure is the month key's tally: `startswith("YYYY-MM")` is the same test
      as `p[5][:7] == "YYYY-MM"`. */
  lemma {:induction false} MonthTotalIsTally(ps: seq<Row>, month: string)
    requires |month| == 7
    ensures MonthTotal(ps, month) == KeyTotal(ps, MonthOf, month)
    decreases |ps|
  {
    if |ps| > 0 {
      MonthTotalIsTally(ps[..|ps| - 1], month);
    }
  }

  /** Every key that occurs is collected, and there are never more keys than rows. */
  lemma {:induction false} KeysBounds(ps: seq<Row>, key: Row -> string)
    ensures |KeysOf(ps, key)| <= |ps|
    ensures forall i :: 0 <= i < |ps| ==> key(ps[i]) in KeysOf(ps, key)
    ensures forall k :: k in KeysOf(ps, key) ==> exists i :: 0 <= i < |ps| && key(ps[i]) == k
  {
    KeysSize(ps, key);
    KeysCover(ps, key);
    KeysOccur(ps, key);
  }

  lemma {:induction false} KeysSize(ps: seq<Row>, key: Row -> string)
    ensures |KeysOf(ps, key)| <= |ps|
    decreases |ps|
  {
    if |ps| > 0 {
      KeysSize(ps[..|ps| - 1], key);
    }
  }

  lemma {:induction false} KeysCover(ps: seq<Row>, key: Row -> string)
    ensures forall i :: 0 <= i < |ps| ==> key(ps[i]) in KeysOf(ps, key)
    decreases |ps|
  {
    if |ps| > 0 {
      var init := ps[..|ps| - 1];
      KeysCover(init, key);
      forall i | 0 <= i < |init|
        ensures key(ps[i]) in KeysOf(ps, key)
      {
        assert ps[i] == init[i];
      }
    }
  }

  lemma {:induction false} KeysOccur(ps: seq<Row>, key: Row -> string)
    ensures forall k :: k in KeysOf(ps, key) ==> exists i :: 0 <= i < |ps| && key(ps[i]) == k
    decreases |ps|
  {
    if |ps| > 0 {
      var init := ps[..|ps| - 1];
      KeysOccur(init, key);
      forall k | k in KeysOf(ps, key)
        ensures exists i :: 0 <= i < |ps| && key(ps[i]) == k
      {
        if k in KeysOf(init, key) {
          var i :| 0 <= i < |init| && key(init[i]) == k;
          assert ps[i] == init[i];
        } else {
          assert key(ps[|ps| - 1]) == k;
        }
      }
    }
  }


  /** There are days with purchases whenever there are purchases, and never more days than
      purchases, so the `days_with_purchases > 0` test always passes. */
  lemma {:induction false} DaysBounds(ps: seq<Row>)
    ensures |DaysOf(ps)| <= |ps|
    ensures |ps| > 0 ==> |DaysOf(ps)| >= 1
  {
    KeysBounds(ps, DayOf);
    if |ps| > 0 {
      assert DayOf(ps[0]) in DaysOf(ps);
    }
  }

  /** The recent table has min(10, n) rows, the newest ones: none left out is newer. */
  lemma {:induction false} RecentSpec(ps: seq<Row>)
    ensures |Recent(ps)| == (if |ps| < 10 then |ps| else 10)
    ensures forall i :: 0 <= i < |Recent(ps)| ==> Recent(ps)[i] == ps[i]
    ensures DateDescending(ps) ==>
              forall i, j :: 0 <= i < |Recent(ps)| <= j < |ps| ==> StrLe(ps[j].date, Recent(ps)[i].date)
  {
  }

  function SumAt(m: map<string, int>, keys: seq<string>): int
    requires forall i :: 0 <= i < |keys| ==> keys[i] in m
  {
    if |keys| == 0 then 0 else SumAt(m, keys[..|keys| - 1]) + m[keys[|keys| - 1]]
  }

  predicate Distinct(keys: seq<string>) {
    forall i, j :: 0 <= i < j < |keys| ==> keys[i] != keys[j]
  }

  lemma {:induction false} SumAtFrame(m: map<string, int>, m': map<string, int>, keys: seq<string>)
    requires forall i :: 0 <= i < |keys| ==> keys[i] in m && keys[i] in m' && m[keys[i]] == m'[keys[i]]
    ensures SumAt(m, keys) == SumAt(m', keys)
    decreases |keys|
  {
    if |keys| > 0 {
      SumAtFrame(m, m', keys[..|keys| - 1]);
    }
  }

  lemma {:induction false} SumAtUpdate(m: map<string, int>, keys: seq<string>, k: string, v: int)
    requires Distinct(keys) && k in keys && forall i :: 0 <= i < |keys| ==> keys[i] in m
    ensures SumAt(m[k := v], keys) == SumAt(m, keys) - m[k] + v
    decreases |keys|
  {
    var init := keys[..|keys| - 1];
    if keys[|keys| - 1] == k {
      assert k !in init;
      SumAtFrame(m, m[k := v], init);
    } else {
      assert k in init;
      SumAtUpdate(m, init, k, v);
    }
  }

  /** The loop `d[key] = d.get(key, 0) + p[2]` over the purchases: one entry per key that
      occurs, holding that key's total; `order` is the dictionary's key order, and the
      entries add up to the overall total. */
  method Tally(ps: seq<Row>, key: Row -> string) returns (totals: map<string, int>, order: seq<string>)
    ensures TallyOf(ps, key, totals, order)
  {
    totals, order := map[], [];
    var i := 0;
    while i < |ps|
      invariant 0 <= i <= |ps|
      invariant TallyOf(ps[..i], key, totals, order)
    {
      var k, a := key(ps[i]), ps[i].amount;
      if k in totals {
        TallyStepSeen(ps, i, key, totals, order);
        totals := totals[k := totals[k] + a];
      } else {
        TallyStepUnseen(ps, i, key, totals, order);
        totals := totals[k := a];
        order := order + [k];
      }
      i := i + 1;
    }
    assert ps[..i] == ps;
  }

  /** What the tally loop keeps true of the rows it has seen: the keys are the keys that
      occur, each holding its own total, a key that does not occur totals nothing, `order`
      lists every key once, and the entries add up to the overall total. */
  ghost predicate TallyOf(ps: seq<Row>, key: Row -> string, totals: map<string, int>, order: seq<string>) {
    totals.Keys == KeysOf(ps, key) &&
    (forall k :: k in totals ==> totals[k] == KeyTotal(ps, key, k)) &&
    (forall k :: k !in totals ==> KeyTotal(ps, key, k) == 0) &&
    Distinct(order) && (forall j :: 0 <= j < |order| ==> order[j] in totals) && (forall k :: k in totals ==> k in order) &&
    SumAt(totals, order) == TotalAmount(ps)
  }

  /** One more row adds its key to the keys, its amount to its key's total and to the
      overall total. */
  lemma {:induction false} SnocTotals(ps: seq<Row>, i: int, key: Row -> string)
    requires 0 <= i < |ps|
    ensures KeysOf(ps[..i + 1], key) == KeysOf(ps[..i], key) + {key(ps[i])}
    ensures forall k :: KeyTotal(ps[..i + 1], key, k) == KeyTotal(ps[..i], key, k) + (if key(ps[i]) == k then ps[i].amount else 0)
    ensures TotalAmount(ps[..i + 1]) == TotalAmount(ps[..i]) + ps[i].amount
  {
    assert ps[..i + 1][..i] == ps[..i];
  }

  /** A row whose key was seen adds its amount to that key's entry. */
  lemma {:induction false} TallyStepSeen(ps: seq<Row>, i: int, key: Row -> string, totals: map<string, int>, order: seq<string>)
    requires 0 <= i < |ps| && TallyOf(ps[..i], key, totals, order) && key(ps[i]) in totals
    ensures TallyOf(ps[..i + 1], key, totals[key(ps[i]) := totals[key(ps[i])] + ps[i].amount], order)
  {
    SnocTotals(ps, i, key);
    var k := key(ps[i]);
    SumAtUpdate(totals, order, k, totals[k] + ps[i].amount);
  }

  /** A row with a new key opens an entry for it at the end of the key order. */
  lemma {:induction false} TallyStepUnseen(ps: seq<Row>, i: int, key: Row -> string, totals: map<string, int>, order: seq<string>)
    requires 0 <= i < |ps| && TallyOf(ps[..i], key, totals, order) && key(ps[i]) !in totals
    ensures TallyOf(ps[..i + 1], key, totals[key(ps[i]) := ps[i].amount], order + [key(ps[i])])
  {
    SnocTotals(ps, i, key);
    var k := key(ps[i]);
    var totals' := totals[k := ps[i].amount];
    SumAtFrame(totals, totals', order);
    SumAtSnoc(totals', order, k);
    DistinctSnoc(order, k);
  }

  lemma {:induction false} SumAtSnoc(m: map<string, int>, keys: seq<string>, k: string)
    requires k in m && forall i :: 0 <= i < |keys| ==> keys[i] in m
    ensures SumAt(m, keys + [k]) == SumAt(m, keys) + m[k]
  {
    assert (keys + [k])[..|keys|] == keys;
  }

  lemma {:induction false} DistinctSnoc(keys: seq<string>, k: string)
    requires Distinct(keys) && k !in keys
    ensures Distinct(keys + [k])
  {
    var keys' := keys + [k];
    forall a, b | 0 <= a < b < |keys'| ensures keys'[a] != keys'[b] {
      if b == |keys| {
        assert keys'[a] == keys[a];
      }
    }
  }

  /** Python's `max(d, key=d.get)`: the first key, in dictionary order, of largest total. */
  function MaxKey(m: map<string, int>, order: seq<string>): (best: string)
    requires |order| > 0 && forall i :: 0 <= i < |order| ==> order[i] in m
    ensures best in order
  {
    if |order| == 1 then order[0]
    else
      var best := MaxKey(m, order[..|order| - 1]);
      if m[order[|order| - 1]] > m[best] then order[|order| - 1] else best
  }

  lemma {:induction false} MaxKeySpec(m: map<string, int>, order: seq<string>)
    requires |order| > 0 && forall i :: 0 <= i < |order| ==> order[i] in m
    ensures exists j :: 0 <= j < |order| && order[j] == MaxKey(m, order) &&
              forall i :: 0 <= i < j ==> m[order[i]] < m[order[j]]
    ensures forall i :: 0 <= i < |order| ==> m[order[i]] <= m[MaxKey(m, order)]
    decreases |order|
  {
    if |order| > 1 {
      var init := order[..|order| - 1];
      MaxKeySpec(m, init);
      var j :| 0 <= j < |init| && init[j] == MaxKey(m, init) && forall i :: 0 <= i < j ==> m[init[i]] < m[init[j]];
      assert forall i :: 0 <= i < |init| ==> order[i] == init[i];
      var last := |order| - 1;
      if m[order[last]] > m[init[j]] {
        assert forall i :: 0 <= i < last ==> m[order[i]] <= m[init[j]];
        assert MaxKey(m, order) == order[last];
      } else {
        assert order[j] == MaxKey(m, order);
      }
    } else {
      assert order[0] == MaxKey(m, order);
    }
  }

  datatype Overview = Overview(monthTotal: int, days: nat, top: string, topTotal: int, recent: seq<Row>)

  /** `update_overview`: nothing without purchases; otherwise this month's total, the number
      of days with purchases, the category with the largest total and the recent rows. */
  method UpdateOverview(ps: seq<Row>, month: string) returns (o: Option<Overview>)
    ensures o.None? <==> |ps| == 0
    ensures o.Some? ==>
              o.value.monthTotal == MonthTotal(ps, month) && o.value.days == |DaysOf(ps)| && o.value.days >= 1 &&
              o.value.recent == Recent(ps) &&
              o.value.top in KeysOf(ps, CategoryLabel) && o.value.topTotal == KeyTotal(ps, CategoryLabel, o.value.top) &&
              forall k :: k in KeysOf(ps, CategoryLabel) ==> KeyTotal(ps, CategoryLabel, k) <= o.value.topTotal
  {
    if |ps| == 0 {
      return None;
    }
    DaysBounds(ps);
    var categories, order := Tally(ps, CategoryLabel);
    KeysBounds(ps, CategoryLabel);
    assert CategoryLabel(ps[0]) in order;
    MaxKeySpec(categories, order);
    var top := MaxKey(categories, order);
    return Some(Overview(MonthTotal(ps, month), |DaysOf(ps)|, top, categories[top], Recent(ps)));
  }

  datatype Analysis = Analysis(count: nat, total: int,
                               byCategory: map<string, int>, categoryOrder: seq<string>,
                               byUser: map<string, int>, userOrder: seq<string>)

  /** `generate_analysis`: nothing without purchases; otherwise the count, the total and the
      per-category and per-user totals, each breakdown adding up to the total the
      percentages divide by. */
  method GenerateAnalysis(ps: seq<Row>) returns (a: Option<Analysis>)
    ensures a.None? <==> |ps| == 0
    ensures a.Some? ==>
              var r := a.value;
              r.count == |ps| && r.total == TotalAmount(ps) &&
              r.byCategory.Keys == KeysOf(ps, CategoryLabel) &&
              (forall k :: k in r.byCategory ==> r.byCategory[k] == KeyTotal(ps, CategoryLabel, k)) &&
              r.byUser.Keys == KeysOf(ps, UserOf) &&
              (forall k :: k in r.byUser ==> r.byUser[k] == KeyTotal(ps, UserOf, k)) &&
              Distinct(r.categoryOrder) && (forall i :: 0 <= i < |r.categoryOrder| ==> r.categoryOrder[i] in r.byCategory) &&
              (forall k :: k in r.byCategory ==> k in r.categoryOrder) &&
              SumAt(r.byCategory, r.categoryOrder) == r.total &&
              Distinct(r.userOrder) && (forall i :: 0 <= i < |r.userOrder| ==> r.userOrder[i] in r.byUser) &&
              (forall k :: k in r.byUser ==> k in r.userOrder) &&
              SumAt(r.byUser, r.userOrder) == r.total
  {
    if |ps| == 0 {
      return None;
    }
    var categories, categoryOrder := Tally(ps, CategoryLabel);
    var users, userOrder := Tally(ps, UserOf);
    return Some(Analysis(|ps|, TotalAmount(ps), categories, categoryOrder, users, userOrder));
  }

  /** A row of the local table in its declared column order: id, user, amount, account_id,
      budget_category_id, description, date, account_name, category. */
  datatype StoredRow = StoredRow(id: int, user: string, amount: int, accountId: Option<int>,
                                 budgetCategoryId: Option<int>, description: Option<string>,
                                 date: string, accountName: Option<string>, category: Option<string>)

  /** The six fields the client uses, read by column name. */
  function ReadByName(s: StoredRow): Row {
    Row(s.id, s.user, s.amount, s.category, s.description, s.date)
  }

  /** The sync's INSERT (and the offline one) names six columns; account_id,
      budget_category_id and account_name stay NULL. Read back by name, the row is the one
      that was written. */
  function Stored(r: Row): (s: StoredRow)
    ensures s.accountId.None? && s.budgetCategoryId.None? && s.accountName.None?
    ensures ReadByName(s) == r
  {
    StoredRow(r.id, r.user, r.amount, None, None, r.description, r.date, None, r.category)
  }

  /** A synced row as `SELECT *` and the client's positional reads see it: index 3 is
      account_id, always NULL here, where the client expects the category; index 4 is
      budget_category_id, also NULL, where it expects the description; index 5 is the
      description, where it expects the date. A NULL description makes `p[5][:10]` raise. */
  function ReadBackAsWritten(r: Row): (read: Option<Row>)
    ensures read.None? <==> r.description.None?
    ensures read.Some? ==> read.value.id == r.id && read.value.user == r.user && read.value.amount == r.amount
    ensures read.Some? ==> read.value.category.None? && read.value.description.None? &&
                           read.value.date == r.description.value && CategoryLabel(read.value) == "Other"
  {
    var s := Stored(r);
    if s.description.None? then None
    else Some(Row(s.id, s.user, s.amount, None, None, s.description.value))
  }

  /** The window's list as written: every synced row read by position. */
  function ReadAllAsWritten(ps: seq<Row>): (read: seq<Row>)
    requires forall i :: 0 <= i < |ps| ==> ps[i].description.Some?
    ensures |read| == |ps| && forall i :: 0 <= i < |ps| ==> ReadBackAsWritten(ps[i]) == Some(read[i])
  {
    if |ps| == 0 then [] else ReadAllAsWritten(ps[..|ps| - 1]) + [ReadBackAsWritten(ps[|ps| - 1]).value]
  }

  /** Rows without a category match no filter choice. */
  lemma {:induction false} NoCategoryMatchesNothing(ps: seq<Row>, selected: string)
    requires forall i :: 0 <= i < |ps| ==> ps[i].category.None?
    ensures Matching(ps, selected) == []
    decreases |ps|
  {
    if |ps| > 0 {
      NoCategoryMatchesNothing(ps[..|ps| - 1], selected);
    }
  }

  /** As written, every purchase is labelled "Other", is dated by its description, and the
      category filter lists nothing for any choice but "All". */
  lemma {:induction false} PositionalReadMislabels(ps: seq<Row>, selected: string)
    requires forall i :: 0 <= i < |ps| ==> ps[i].description.Some?
    ensures var read := ReadAllAsWritten(ps);
            (forall i :: 0 <= i < |read| ==> CategoryLabel(read[i]) == "Other" && read[i].date == ps[i].description.value) &&
            FilterTransactions(read, selected) == (if selected == "All" then read else [])
  {
    var read := ReadAllAsWritten(ps);
    forall i | 0 <= i < |read|
      ensures read[i].category.None?
    {
      assert ReadBackAsWritten(ps[i]) == Some(read[i]);
    }
    NoCategoryMatchesNothing(read, selected);
  }

  /** A lunch bought in August: read by position it counts as "Other" and not in the August
      total; read by name it counts under its category and in the total. */
  lemma PositionalReadExample()
    ensures var r := Row(1, "Robert", 1250, Some("Robert - Food"), Some("lunch"), "2025-08-14T12:00:00");
            var written := ReadAllAsWritten([r]);
            var intended := [ReadByName(Stored(r))];
            CategoryLabel(written[0]) == "Other" && MonthTotal(written, "2025-08") == 0 &&
            CategoryLabel(intended[0]) == "Robert - Food" && MonthTotal(intended, "2025-08") == 1250
  {
    var r := Row(1, "Robert", 1250, Some("Robert - Food"), Some("lunch"), "2025-08-14T12:00:00");
    var written := ReadAllAsWritten([r]);
    assert [r][..0] == [];
    assert written == [Row(1, "Robert", 1250, None, None, "lunch")];
    assert !StartsWith("lunch", "2025-08");
    assert StartsWith("2025-08-14T12:00:00", "2025-08");
  }
}
