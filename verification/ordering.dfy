/** The orders the SQL `ORDER BY` clauses impose, modelled as code-point
    lexicographic order on strings (nulls first for nullable columns), with
    insertion sort for `ORDER BY` and a sorted distinct list for
    `SELECT DISTINCT ... ORDER BY`. */
module Ordering {
  import opened Wrappers

  /** Lexicographic `a <= b`. */
  predicate StrLe(a: string, b: string)
    decreases |a|
  {
    |a| == 0 || (|b| > 0 && (a[0] < b[0] || (a[0] == b[0] && StrLe(a[1..], b[1..]))))
  }

  lemma {:induction false} StrLeTotal(a: string, b: string)
    ensures StrLe(a, b) || StrLe(b, a)
    decreases |a|
  {
    if |a| > 0 && |b| > 0 && a[0] == b[0] {
      StrLeTotal(a[1..], b[1..]);
    }
  }

  lemma {:induction false} StrLeTransitive(a: string, b: string, c: string)
    requires StrLe(a, b) && StrLe(b, c)
    ensures StrLe(a, c)
    decreases |a|
  {
    if |a| > 0 && a[0] == b[0] && b[0] == c[0] {
      StrLeTransitive(a[1..], b[1..], c[1..]);
    }
  }

  lemma {:induction false} StrLeAntisymmetric(a: string, b: string)
    requires StrLe(a, b) && StrLe(b, a)
    ensures a == b
    decreases |a|
  {
    if |a| > 0 {
      StrLeAntisymmetric(a[1..], b[1..]);
      assert a == [a[0]] + a[1..] && b == [b[0]] + b[1..];
    }
  }

  /** `s` is in ascending order of `key`. */
  predicate SortedBy<T>(s: seq<T>, key: T -> string) {
    forall i, j | 0 <= i < j < |s| :: StrLe(key(s[i]), key(s[j]))
  }

  /** `x` inserted into an ascending sequence at its place. */
  function InsertBy<T>(x: T, s: seq<T>, key: T -> string): (r: seq<T>)
    requires SortedBy(s, key)
    ensures SortedBy(r, key)
    ensures multiset(r) == multiset(s) + multiset{x}
  {
    if |s| == 0 then [x]
    else if StrLe(key(x), key(s[0])) then
      HeadBound(x, s, key);
      ConsSorted(x, s, key);
      [x] + s
    else
      var t := InsertBy(x, s[1..], key);
      StrLeTotal(key(x), key(s[0]));
      TailBound(x, s, key);
      BoundSurvivesPermutation(key(s[0]), [x] + s[1..], t, key);
      ConsSorted(s[0], t, key);
      assert s == [s[0]] + s[1..];
      [s[0]] + t
  }

  /** A key below the head of an ascending sequence is below all of it. */
  lemma HeadBound<T>(x: T, s: seq<T>, key: T -> string)
    requires SortedBy(s, key) && |s| > 0 && StrLe(key(x), key(s[0]))
    ensures forall j | 0 <= j < |s| :: StrLe(key(x), key(s[j]))
  {
    forall j | 0 <= j < |s| ensures StrLe(key(x), key(s[j])) {
      if j > 0 { StrLeTransitive(key(x), key(s[0]), key(s[j])); }
    }
  }

  /** The head of an ascending sequence bounds its tail and anything above it. */
  lemma TailBound<T>(x: T, s: seq<T>, key: T -> string)
    requires SortedBy(s, key) && |s| > 0 && StrLe(key(s[0]), key(x))
    ensures forall j | 0 <= j < |s| :: StrLe(key(s[0]), key(([x] + s[1..])[j]))
  {
    var u := [x] + s[1..];
    forall j | 0 <= j < |u| ensures StrLe(key(s[0]), key(u[j])) {
      if j > 0 { assert u[j] == s[j]; }
    }
  }

  /** An element below all of an ascending sequence can head it. */
  lemma ConsSorted<T>(y: T, t: seq<T>, key: T -> string)
    requires SortedBy(t, key)
    requires forall j | 0 <= j < |t| :: StrLe(key(y), key(t[j]))
    ensures SortedBy([y] + t, key)
  {
    var r := [y] + t;
    forall i, j | 0 <= i < j < |r| ensures StrLe(key(r[i]), key(r[j])) {
      assert r[j] == t[j - 1];
      if i > 0 { assert r[i] == t[i - 1]; }
    }
  }

  /** A lower bound of every element of `u` bounds any permutation of `u`. */
  lemma BoundSurvivesPermutation<T>(b: string, u: seq<T>, t: seq<T>, key: T -> string)
    requires forall j | 0 <= j < |u| :: StrLe(b, key(u[j]))
    requires multiset(t) == multiset(u)
    ensures forall j | 0 <= j < |t| :: StrLe(b, key(t[j]))
  {
    forall j | 0 <= j < |t| ensures StrLe(b, key(t[j])) {
      assert t[j] in multiset(u);
      var k :| 0 <= k < |u| && u[k] == t[j];
    }
  }

  /** `ORDER BY key`: an ascending permutation of `s`. */
  function SortBy<T>(s: seq<T>, key: T -> string): (r: seq<T>)
    ensures SortedBy(r, key)
    ensures multiset(r) == multiset(s)
    ensures |r| == |s|
  {
    if |s| == 0 then []
    else
      assert s == [s[0]] + s[1..];
      InsertBy(s[0], SortBy(s[1..], key), key)
  }

  /** Ascending order on a nullable column, nulls first. */
  predicate OptLe(a: Option<string>, b: Option<string>) {
    a.None? || (b.Some? && StrLe(a.value, b.value))
  }

  /** Strictly ascending, hence free of duplicates. */
  predicate StrictlyAscending(s: seq<Option<string>>) {
    forall i, j | 0 <= i < j < |s| :: OptLe(s[i], s[j]) && s[i] != s[j]
  }

  function Elems<T>(s: seq<T>): set<T> {
    set i | 0 <= i < |s| :: s[i]
  }

  lemma OptLeTransitive(a: Option<string>, b: Option<string>, c: Option<string>)
    requires OptLe(a, b) && OptLe(b, c)
    ensures OptLe(a, c)
  {
    if a.Some? {
      StrLeTransitive(a.value, b.value, c.value);
    }
  }

  /** `x` added to a strictly ascending sequence, unless already there. */
  function InsertDistinct(x: Option<string>, s: seq<Option<string>>): (r: seq<Option<string>>)
    requires StrictlyAscending(s)
    ensures StrictlyAscending(r)
    ensures Elems(r) == Elems(s) + {x}
  {
    if |s| == 0 then
      assert [x][0] == x;
      [x]
    else if x == s[0] then s
    else if OptLe(x, s[0]) then
      assert forall j | 0 <= j < |s| :: OptLe(x, s[j]) && x != s[j] by {
        forall j | 0 <= j < |s| ensures OptLe(x, s[j]) && x != s[j] {
          if j > 0 {
            OptLeTransitive(x, s[0], s[j]);
            if x == s[j] {
              assert OptLe(s[0], x);
              if x.Some? { StrLeAntisymmetric(x.value, s[0].value); }
            }
          }
        }
      }
      var r := [x] + s;
      assert Elems(r) == Elems(s) + {x} by {
        assert r[0] == x;
        forall y | y in Elems(r) ensures y in Elems(s) + {x} {
          var i :| 0 <= i < |r| && r[i] == y;
          if i > 0 { assert s[i - 1] == y; }
        }
        forall y | y in Elems(s) ensures y in Elems(r) {
          var i :| 0 <= i < |s| && s[i] == y;
          assert r[i + 1] == y;
        }
      }
      r
    else
      var t := InsertDistinct(x, s[1..]);
      assert OptLe(s[0], x) by {
        if x.Some? && s[0].Some? { StrLeTotal(x.value, s[0].value); }
      }
      assert Elems(s) == {s[0]} + Elems(s[1..]) by {
        forall y | y in Elems(s) ensures y in {s[0]} + Elems(s[1..]) {
          var i :| 0 <= i < |s| && s[i] == y;
          if i > 0 { assert s[1..][i - 1] == y; }
        }
      }
      assert forall j | 0 <= j < |t| :: OptLe(s[0], t[j]) && s[0] != t[j] by {
        forall j | 0 <= j < |t| ensures OptLe(s[0], t[j]) && s[0] != t[j] {
          assert t[j] in Elems(t);
        }
      }
      var r := [s[0]] + t;
      assert Elems(r) == {s[0]} + Elems(t) by {
        assert r[0] == s[0];
        forall y | y in Elems(r) ensures y in {s[0]} + Elems(t) {
          var i :| 0 <= i < |r| && r[i] == y;
          if i > 0 { assert t[i - 1] == y; }
        }
        forall y | y in Elems(t) ensures y in Elems(r) {
          var i :| 0 <= i < |t| && t[i] == y;
          assert r[i + 1] == y;
        }
      }
      r
  }

  /** `SELECT DISTINCT col ... ORDER BY col`: every value once, ascending. */
  function SortedDistinct(s: seq<Option<string>>): (r: seq<Option<string>>)
    ensures StrictlyAscending(r)
    ensures Elems(r) == Elems(s)
  {
    if |s| == 0 then []
    else
      var r := InsertDistinct(s[0], SortedDistinct(s[1..]));
      assert Elems(s) == {s[0]} + Elems(s[1..]) by {
        forall y | y in Elems(s) ensures y in {s[0]} + Elems(s[1..]) {
          var i :| 0 <= i < |s| && s[i] == y;
          if i > 0 { assert s[1..][i - 1] == y; }
        }
      }
      r
  }
}
