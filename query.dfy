/** The three query shapes the routers ask of the store: `.filter(..).first()`,
    a filter over a table, and `.offset(skip).limit(limit)`, all over rows kept in
    insertion (primary-key) order. */
module Query {
  import opened Common

  /** Index of the first row satisfying `p`, as `.filter(p).first()` finds it. */
  function FirstMatch<T>(s: seq<T>, p: T -> bool): (r: Option<nat>)
    ensures r.None? <==> forall i :: 0 <= i < |s| ==> !p(s[i])
    ensures r.Some? ==> r.value < |s| && p(s[r.value])
    ensures r.Some? ==> forall i :: 0 <= i < r.value ==> !p(s[i])
  {
    if |s| == 0 then None
    else if p(s[0]) then Some(0)
    else
      match FirstMatch(s[1..], p)
      case None => None
      case Some(k) => Some(k + 1)
  }

  /** The rows satisfying `p`, in their original order. */
  function Filter<T(!new)>(s: seq<T>, p: T -> bool): (r: seq<T>)
    ensures |r| <= |s|
    ensures forall x :: x in r <==> x in s && p(x)
  {
    if |s| == 0 then []
    else (if p(s[0]) then [s[0]] else []) + Filter(s[1..], p)
  }

  /** No row satisfies `p` exactly when the filter is empty. */
  lemma {:induction false} FilterEmpty<T(!new)>(s: seq<T>, p: T -> bool)
    ensures Filter(s, p) == [] <==> forall i :: 0 <= i < |s| ==> !p(s[i])
  {
    if |s| > 0 {
      FilterEmpty(s[1..], p);
      assert forall i :: 1 <= i < |s| ==> s[i] == s[1..][i - 1];
    }
  }

  /** When every row satisfies `p`, the filter keeps the whole table. */
  lemma {:induction false} FilterAll<T(!new)>(s: seq<T>, p: T -> bool)
    requires forall i :: 0 <= i < |s| ==> p(s[i])
    ensures Filter(s, p) == s
  {
    if |s| > 0 {
      var tail := s[1..];
      forall i | 0 <= i < |tail| ensures p(tail[i]) {
        assert tail[i] == s[i + 1];
      }
      FilterAll(tail, p);
      assert s == [s[0]] + tail;
    }
  }

  /** The rows are in strictly increasing order of `key`. */
  ghost predicate Increasing<T>(s: seq<T>, key: T -> int) {
    forall i, j :: 0 <= i < j < |s| ==> key(s[i]) < key(s[j])
  }

  /** Keeping only some rows keeps any strict order the rows had by a key. */
  lemma {:induction false} FilterKeepsOrder<T(!new)>(s: seq<T>, p: T -> bool, key: T -> int)
    requires Increasing(s, key)
    ensures Increasing(Filter(s, p), key)
  {
    if |s| > 0 {
      var tail := s[1..];
      assert Increasing(tail, key) by {
        forall i, j | 0 <= i < j < |tail| ensures key(tail[i]) < key(tail[j]) {
          assert tail[i] == s[i + 1] && tail[j] == s[j + 1];
        }
      }
      FilterKeepsOrder(tail, p, key);
      var rest := Filter(tail, p);
      if p(s[0]) {
        forall x | x in rest ensures key(s[0]) < key(x) {
          var k :| 0 <= k < |tail| && tail[k] == x;
          assert s[k + 1] == x;
        }
        var r := Filter(s, p);
        assert r == [s[0]] + rest;
        forall i, j | 0 <= i < j < |r| ensures key(r[i]) < key(r[j]) {
          assert r[j] == rest[j - 1] && rest[j - 1] in rest;
          if 0 < i {
            assert r[i] == rest[i - 1];
          }
        }
      } else {
        assert Filter(s, p) == rest;
      }
    }
  }

  /** Where `.offset(skip)` starts: SQLite reads a negative offset as zero. */
  function Start(n: nat, skip: int): (from: nat)
    ensures from <= n
    ensures 0 <= skip <= n ==> from == skip
    ensures skip < 0 ==> from == 0
    ensures n < skip ==> from == n
  {
    if skip <= 0 then 0 else if skip < n then skip else n
  }

  /** `.offset(skip).limit(limit)`: at most `limit` rows (any number when `limit`
      is negative, as SQLite reads it), starting after the first `skip`, in order. */
  function Page<T>(s: seq<T>, skip: int, limit: int): (r: seq<T>)
    ensures var from := Start(|s|, skip);
      && from + |r| <= |s|
      && (forall i :: 0 <= i < |r| ==> r[i] == s[from + i])
      && (limit < 0 ==> |r| == |s| - from)
      && (0 <= limit ==> |r| == if limit < |s| - from then limit else |s| - from)
  {
    var from := Start(|s|, skip);
    var to := if limit < 0 || |s| - from <= limit then |s| else from + limit;
    s[from..to]
  }

  /** The table without row `i`; rows before it keep their place, rows after it move up one. */
  function RemoveAt<T(!new)>(s: seq<T>, i: nat): (r: seq<T>)
    requires i < |s|
    ensures |r| == |s| - 1
    ensures forall j :: 0 <= j < i ==> r[j] == s[j]
    ensures forall j :: i <= j < |r| ==> r[j] == s[j + 1]
    ensures forall x :: x in s && x != s[i] ==> x in r
  {
    s[..i] + s[i + 1..]
  }
}
