/**
 * Sort keys and the ordering the store's ORDER BY clauses produce.
 * A key is a sequence of integers compared lexicographically; a multi-column
 * ORDER BY becomes the concatenation of its columns' keys.
 */
module Ordering {

  /** Lexicographic order on keys; a proper prefix sorts first. */
  predicate LexLeq(a: seq<int>, b: seq<int>)
  {
    if |a| == 0 then true
    else if |b| == 0 then false
    else a[0] < b[0] || (a[0] == b[0] && LexLeq(a[1..], b[1..]))
  }

  lemma {:induction false} LexLeqTotal(a: seq<int>, b: seq<int>)
    ensures LexLeq(a, b) || LexLeq(b, a)
  {
    if |a| > 0 && |b| > 0 && a[0] == b[0] {
      LexLeqTotal(a[1..], b[1..]);
    }
  }

  lemma {:induction false} LexLeqTransitive(a: seq<int>, b: seq<int>, c: seq<int>)
    requires LexLeq(a, b) && LexLeq(b, c)
    ensures LexLeq(a, c)
  {
    if |a| > 0 && |b| > 0 && |c| > 0 && a[0] == b[0] == c[0] {
      LexLeqTransitive(a[1..], b[1..], c[1..]);
    }
  }

  /** No element occurs twice. */
  predicate Distinct<T(==)>(s: seq<T>)
  {
    forall i, j :: 0 <= i < j < |s| ==> s[i] != s[j]
  }

  /** `ids` name rows of `rows`, listed in ascending order of `key`. */
  ghost predicate SortedBy<R>(rows: map<nat, R>, ids: seq<nat>, key: R -> seq<int>)
  {
    && (forall i :: 0 <= i < |ids| ==> ids[i] in rows)
    && (forall i, j :: 0 <= i < j < |ids| ==> LexLeq(key(rows[ids[i]]), key(rows[ids[j]])))
  }

  /** Prepending a row whose key is below every key of a sorted list keeps it sorted. */
  lemma SortedCons<R>(rows: map<nat, R>, key: R -> seq<int>, x: nat, s: seq<nat>)
    requires x in rows && SortedBy(rows, s, key)
    requires forall y :: y in s ==> LexLeq(key(rows[x]), key(rows[y]))
    ensures SortedBy(rows, [x] + s, key)
  {
    var r := [x] + s;
    forall i, j | 0 <= i < j < |r| ensures LexLeq(key(rows[r[i]]), key(rows[r[j]])) {
      if i > 0 {
        assert r[i] == s[i - 1] && r[j] == s[j - 1];
      } else {
        assert r[j] == s[j - 1] && r[j] in s;
      }
    }
  }

  /** The tail of a sorted list is sorted, and its head's key is below all of the tail's. */
  lemma SortedTail<R>(rows: map<nat, R>, key: R -> seq<int>, s: seq<nat>)
    requires SortedBy(rows, s, key) && s != []
    ensures SortedBy(rows, s[1..], key)
    ensures forall y :: y in s[1..] ==> LexLeq(key(rows[s[0]]), key(rows[y]))
  {
    var tail := s[1..];
    forall i, j | 0 <= i < j < |tail| ensures LexLeq(key(rows[tail[i]]), key(rows[tail[j]])) {
      assert tail[i] == s[i + 1] && tail[j] == s[j + 1];
    }
    forall y | y in tail ensures LexLeq(key(rows[s[0]]), key(rows[y])) {
      var j :| 0 <= j < |tail| && tail[j] == y;
      assert s[j + 1] == y;
    }
  }

  /** A key below the head of a sorted list is below every key in it. */
  lemma BelowHead<R>(rows: map<nat, R>, key: R -> seq<int>, x: nat, s: seq<nat>)
    requires x in rows && SortedBy(rows, s, key) && s != []
    requires LexLeq(key(rows[x]), key(rows[s[0]]))
    ensures forall y :: y in s ==> LexLeq(key(rows[x]), key(rows[y]))
  {
    forall y | y in s ensures LexLeq(key(rows[x]), key(rows[y])) {
      var j :| 0 <= j < |s| && s[j] == y;
      if j > 0 { LexLeqTransitive(key(rows[x]), key(rows[s[0]]), key(rows[s[j]])); }
    }
  }

  /** Inserts `x` into the sorted `s`, before the first element whose key is not below x's. */
  function Insert<R>(rows: map<nat, R>, key: R -> seq<int>, x: nat, s: seq<nat>): (r: seq<nat>)
    requires x in rows && SortedBy(rows, s, key)
    requires Distinct(s) && x !in s
    ensures forall y :: y in r <==> y == x || y in s
    ensures |r| == |s| + 1
    ensures SortedBy(rows, r, key) && Distinct(r)
  {
    if s == [] then [x]
    else if LexLeq(key(rows[x]), key(rows[s[0]])) then
      BelowHead(rows, key, x, s);
      SortedCons(rows, key, x, s);
      [x] + s
    else
      SortedTail(rows, key, s);
      assert s == [s[0]] + s[1..];
      var rest := Insert(rows, key, x, s[1..]);
      LexLeqTotal(key(rows[x]), key(rows[s[0]]));
      SortedCons(rows, key, s[0], rest);
      [s[0]] + rest
  }

  /** Insertion sort of `s` by `key`; equal keys keep their relative order. */
  function SortBy<R>(rows: map<nat, R>, key: R -> seq<int>, s: seq<nat>): (r: seq<nat>)
    requires (forall y :: y in s ==> y in rows) && Distinct(s)
    ensures forall y :: y in r <==> y in s
    ensures |r| == |s|
    ensures SortedBy(rows, r, key) && Distinct(r)
  {
    if s == [] then []
    else
      assert forall y :: y in s <==> y == s[0] || y in s[1..] by {
        assert s == [s[0]] + s[1..];
      }
      var sorted := SortBy(rows, key, s[1..]);
      Insert(rows, key, s[0], sorted)
  }

  /** `m` is the least element of `s`. */
  predicate IsLeast(m: nat, s: set<nat>)
  {
    m in s && forall y :: y in s ==> m <= y
  }

  lemma {:induction false} HasLeast(s: set<nat>)
    requires s != {}
    ensures exists m :: IsLeast(m, s)
    decreases |s|
  {
    var x :| x in s;
    var rest := s - {x};
    if rest == {} {
      assert s == {x};
      assert IsLeast(x, s);
    } else {
      HasLeast(rest);
      var m :| IsLeast(m, rest);
      var least := if x < m then x else m;
      forall y | y in s ensures least <= y {
        if y != x { assert y in rest; }
      }
      assert IsLeast(least, s);
    }
  }

  /** The least id of a non-empty set. */
  function Least(s: set<nat>): (m: nat)
    requires s != {}
    ensures IsLeast(m, s)
  {
    HasLeast(s);
    var m :| IsLeast(m, s);
    m
  }

  /** The ids of `s` in ascending order: the store's natural (primary-key) order. */
  function AscendingIds(s: set<nat>): (r: seq<nat>)
    ensures forall i, j :: 0 <= i < j < |r| ==> r[i] < r[j]
    ensures forall x :: x in r <==> x in s
    decreases s
  {
    if s == {} then []
    else
      var m := Least(s);
      var rest := AscendingIds(s - {m});
      assert forall j :: 0 <= j < |rest| ==> m < rest[j] by {
        forall j | 0 <= j < |rest| ensures m < rest[j] {
          assert rest[j] in rest;
        }
      }
      [m] + rest
  }

  /** Key of a nullable integer column: NULL sorts before every value. */
  function NullableKey(v: Option<int>): seq<int>
  {
    match v
    case None => [0]
    case Some(x) => [1, x]
  }

  /** Key of a nullable integer column sorted DESC: values from largest to smallest, then NULL. */
  function NullableKeyDesc(v: Option<int>): seq<int>
  {
    match v
    case None => [1]
    case Some(x) => [0, -x]
  }

  /** Key of a text column: code points, shifted past 0, then a terminator 0 so that a prefix sorts first. */
  function TextKey(s: string): (k: seq<int>)
    ensures |k| == |s| + 1
  {
    seq(|s|, i requires 0 <= i < |s| => s[i] as int + 1) + [0]
  }

  import opened Wrappers
}
