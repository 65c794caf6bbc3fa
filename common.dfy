/** Small value types and string helpers shared by every part of the ledger model. */
module Common {

  /** An optional value; `None` stands for SQL NULL or an absent JSON key. */
  datatype Option<T> = None | Some(value: T) {
    function GetOr(default: T): T {
      match this
      case Some(v) => v
      case None => default
    }
  }

  /** The outcome of an operation that reports an error message instead of raising. */
  datatype Result<T> = Ok(value: T) | Err(message: string)

  /** Python truthiness of an optional integer id: `None` and `0` are both false. */
  predicate Truthy(id: Option<int>) {
    id.Some? && id.value != 0
  }

  /** SQL `s LIKE 'prefix%'` and Python `s.startswith(prefix)`. */
  predicate StartsWith(s: string, prefix: string) {
    |prefix| <= |s| && s[..|prefix|] == prefix
  }

  /** `t` occurs in `s` starting at index `i`. */
  predicate OccursAt(s: string, t: string, i: int) {
    0 <= i && i + |t| <= |s| && s[i..i + |t|] == t
  }

  /** SQL `s LIKE '%t%'`. */
  predicate Contains(s: string, t: string) {
    exists i | 0 <= i <= |s| :: OccursAt(s, t, i)
  }

  /** SQL `REPLACE(s, from, to)`: every occurrence of `from`, scanned left to right
      without overlap, is replaced by `to`. */
  function ReplaceAll(s: string, from: string, to: string): string
    requires |from| > 0
    decreases |s|
  {
    if |s| < |from| then s
    else if s[..|from|] == from then to + ReplaceAll(s[|from|..], from, to)
    else [s[0]] + ReplaceAll(s[1..], from, to)
  }

  /** REPLACE leaves a string without an occurrence of the pattern unchanged. */
  lemma {:induction false} ReplaceAllWithoutOccurrence(s: string, from: string, to: string)
    requires |from| > 0
    requires !Contains(s, from)
    ensures ReplaceAll(s, from, to) == s
    decreases |s|
  {
    if |s| >= |from| {
      assert !OccursAt(s, from, 0);
      assert s[..|from|] != from;
      if Contains(s[1..], from) {
        var i :| 0 <= i <= |s[1..]| && OccursAt(s[1..], from, i);
        assert 0 <= i && i + |from| <= |s| - 1 && s[1..][i..i + |from|] == from;
        assert s[1..][i..i + |from|] == s[i + 1..i + 1 + |from|];
        assert OccursAt(s, from, i + 1);
        assert false;
      }
      ReplaceAllWithoutOccurrence(s[1..], from, to);
      assert [s[0]] + s[1..] == s;
    }
  }

  /** REPLACE on a string holding the pattern yields a string holding the replacement. */
  lemma {:induction false} ReplaceAllIntroduces(s: string, from: string, to: string)
    requires |from| > 0 && Contains(s, from)
    ensures Contains(ReplaceAll(s, from, to), to)
    decreases |s|
  {
    var i :| 0 <= i <= |s| && OccursAt(s, from, i);
    var r := ReplaceAll(s, from, to);
    if s[..|from|] == from {
      assert r[0..|to|] == to;
      assert OccursAt(r, to, 0);
    } else {
      assert i > 0;
      assert s[1..][i - 1..i - 1 + |from|] == s[i..i + |from|];
      assert OccursAt(s[1..], from, i - 1);
      ReplaceAllIntroduces(s[1..], from, to);
      var rest := ReplaceAll(s[1..], from, to);
      var j :| 0 <= j <= |rest| && OccursAt(rest, to, j);
      assert r == [s[0]] + rest;
      assert r[j + 1..j + 1 + |to|] == rest[j..j + |to|];
      assert OccursAt(r, to, j + 1);
    }
  }

  predicate IsDigit(c: char) {
    '0' <= c <= '9'
  }

  /** All characters of `s` are decimal digits and there is at least one. */
  predicate AllDigits(s: string) {
    |s| > 0 && forall i :: 0 <= i < |s| ==> IsDigit(s[i])
  }

  function DigitChar(d: int): (c: char)
    requires 0 <= d < 10
    ensures IsDigit(c)
  {
    (48 + d) as char
  }

  /** Decimal rendering of a natural number, as Python's `str(n)` or strftime's `%Y`. */
  function NatToString(n: nat): (r: string)
    ensures AllDigits(r)
    ensures n >= 10 ==> |r| >= 2
  {
    if n < 10 then [DigitChar(n)] else NatToString(n / 10) + [DigitChar(n % 10)]
  }

  /** Different numbers render to different strings. */
  lemma {:induction false} NatToStringInjective(a: nat, b: nat)
    requires NatToString(a) == NatToString(b)
    ensures a == b
  {
    var sa, sb := NatToString(a), NatToString(b);
    if a < 10 && b < 10 {
      assert sa[0] == DigitChar(a) && sb[0] == DigitChar(b);
    } else if a >= 10 && b >= 10 {
      assert sa[|sa| - 1] == DigitChar(a % 10);
      assert sb[|sb| - 1] == DigitChar(b % 10);
      assert sa[..|sa| - 1] == NatToString(a / 10);
      assert sb[..|sb| - 1] == NatToString(b / 10);
      NatToStringInjective(a / 10, b / 10);
    }
  }

  /** A set of integers holding `w` has a least element at most `w`. */
  lemma {:induction false} MinBelow(s: set<int>, w: int)
    requires w in s
    ensures exists m :: m in s && m <= w && forall x :: x in s ==> m <= x
    decreases set z | z in s && z < w
  {
    if exists y :: y in s && y < w {
      var y :| y in s && y < w;
      assert (set z | z in s && z < y) < (set z | z in s && z < w) by {
        var below, belowW := set z | z in s && z < y, set z | z in s && z < w;
        assert below <= belowW;
        assert y in belowW && y !in below;
      }
      MinBelow(s, y);
    } else {
      assert forall x :: x in s ==> w <= x;
    }
  }

  /** A set that is not empty has an element. */
  lemma {:induction false} NonEmptyHasElement(s: set<int>)
    requires s != {}
    ensures exists x :: x in s
  {
    if forall x :: x !in s {
      assert false;
    }
  }

  /** A set of names that is not empty has an element. */
  lemma {:induction false} NonEmptyHasName(s: set<string>)
    requires s != {}
    ensures exists x :: x in s
  {
    if forall x :: x !in s {
      assert false;
    }
  }

  /** Every finite set of integers with an element has a least element. */
  lemma {:induction false} MinExists(s: set<int>)
    requires exists x :: x in s
    ensures exists m :: m in s && forall x :: x in s ==> m <= x
  {
    var w :| w in s;
    MinBelow(s, w);
  }

  /** The least element of a nonempty finite set of ids. */
  function MinOf(s: set<int>): (r: int)
    requires exists x :: x in s
    ensures r in s && forall x :: x in s ==> r <= x
  {
    MinExists(s);
    var m :| m in s && forall x :: x in s ==> m <= x;
    m
  }
}
