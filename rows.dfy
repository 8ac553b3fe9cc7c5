/** The meaning of the clauses the query service's SELECT statements use,
    over a table given as a sequence of rows: WHERE (Filter), ORDER BY
    (SortBy, ascending by an integer sort key) and LIMIT (Take). */
module Rows {

  /** WHERE: the rows that satisfy `keep`, in table order. */
  function Filter<T(!new)>(rows: seq<T>, keep: T -> bool): (kept: seq<T>)
    ensures forall i :: 0 <= i < |kept| ==> keep(kept[i])
    ensures forall x :: multiset(kept)[x] == if keep(x) then multiset(rows)[x] else 0
  {
    if rows == [] then []
    else
      var tail := Filter(rows[1..], keep);
      assert rows == [rows[0]] + rows[1..];
      if keep(rows[0]) then [rows[0]] + tail else tail
  }

  /** Non-decreasing by `key`. */
  predicate SortedBy<T>(s: seq<T>, key: T -> int)
  {
    forall i, j :: 0 <= i < j < |s| ==> key(s[i]) <= key(s[j])
  }

  /** A row put in front of a sorted sequence whose first key is no smaller
      keeps it sorted. */
  lemma SortedCons<T>(y: T, t: seq<T>, key: T -> int)
    requires SortedBy(t, key)
    requires t == [] || key(y) <= key(t[0])
    ensures SortedBy([y] + t, key)
  {
    var r := [y] + t;
    forall i, j | 0 <= i < j < |r| ensures key(r[i]) <= key(r[j]) {
      assert r[j] == t[j - 1];
      if i > 0 {
        assert r[i] == t[i - 1];
      }
    }
  }

  /** Insertion into a sorted sequence, in front of every element with an
      equal key. */
  function Insert<T>(x: T, s: seq<T>, key: T -> int): (r: seq<T>)
    requires SortedBy(s, key)
    ensures SortedBy(r, key)
    ensures multiset(r) == multiset(s) + multiset{x}
    ensures r[0] == x || r[0] == s[0]
  {
    if s == [] || key(x) <= key(s[0]) then
      SortedCons(x, s, key);
      [x] + s
    else
      var tail := Insert(x, s[1..], key);
      assert s == [s[0]] + s[1..];
      SortedCons(s[0], tail, key);
      [s[0]] + tail
  }

  /** ORDER BY key ASC: a sorted permutation of the rows. Each row is
      inserted in front of the sorted rows that follow it in the table,
      ahead of those with an equal key, so ties keep their table order. */
  function SortBy<T>(rows: seq<T>, key: T -> int): (sorted: seq<T>)
    ensures SortedBy(sorted, key)
    ensures multiset(sorted) == multiset(rows)
  {
    if rows == [] then []
    else
      assert rows == [rows[0]] + rows[1..];
      Insert(rows[0], SortBy(rows[1..], key), key)
  }

  /** WHERE on a sequence that starts with `x`: `x` is kept exactly when it
      satisfies `keep`, in front of what the rest keeps. */
  lemma FilterCons<T(!new)>(x: T, rest: seq<T>, keep: T -> bool)
    ensures Filter([x] + rest, keep) == if keep(x) then [x] + Filter(rest, keep) else Filter(rest, keep)
  {
    assert ([x] + rest)[1..] == rest;
  }

  /** Inserting `x` leaves the rows of one key in the order they have in
      `[x] + s`: `x` only moves past rows with a smaller key. */
  lemma {:induction false} InsertKeepsTieOrder<T(!new)>(x: T, s: seq<T>, key: T -> int, k: int)
    requires SortedBy(s, key)
    ensures Filter(Insert(x, s, key), r => key(r) == k) == Filter([x] + s, r => key(r) == k)
    decreases |s|
  {
    var keep := r => key(r) == k;
    if s != [] && key(x) > key(s[0]) {
      var tail := Insert(x, s[1..], key);
      assert s == [s[0]] + s[1..];
      InsertKeepsTieOrder(x, s[1..], key, k);
      FilterCons(s[0], tail, keep);
      FilterCons(x, s[1..], keep);
      FilterCons(x, s, keep);
      FilterCons(s[0], s[1..], keep);
    }
  }

  /** ORDER BY is stable: the rows of any one key come out in table order. */
  lemma {:induction false} SortByStable<T(!new)>(rows: seq<T>, key: T -> int, k: int)
    ensures Filter(SortBy(rows, key), r => key(r) == k) == Filter(rows, r => key(r) == k)
  {
    var keep := r => key(r) == k;
    if rows != [] {
      var rest := SortBy(rows[1..], key);
      SortByStable(rows[1..], key, k);
      InsertKeepsTieOrder(rows[0], rest, key, k);
      FilterCons(rows[0], rest, keep);
      FilterCons(rows[0], rows[1..], keep);
      assert rows == [rows[0]] + rows[1..];
    }
  }

  /** LIMIT n: the first `n` rows, or all of them when there are fewer. */
  function Take<T>(rows: seq<T>, n: nat): (first: seq<T>)
    ensures |first| == if n < |rows| then n else |rows|
    ensures first <= rows
  {
    if n < |rows| then rows[..n] else rows
  }

  /** The first `n` rows of a sorted sequence are the `n` smallest: every row
      left out has a key no smaller than that of any row taken. */
  lemma TakeOfSortedIsSmallest<T>(sorted: seq<T>, key: T -> int, n: nat)
    requires SortedBy(sorted, key)
    ensures forall x, i :: x in multiset(sorted) - multiset(Take(sorted, n)) && 0 <= i < |Take(sorted, n)|
              ==> key(Take(sorted, n)[i]) <= key(x)
  {
    var first := Take(sorted, n);
    var k := |first|;
    assert sorted == first + sorted[k..];
    assert multiset(sorted) - multiset(first) == multiset(sorted[k..]);
    forall x, i | x in multiset(sorted) - multiset(first) && 0 <= i < k
      ensures key(first[i]) <= key(x)
    {
      assert x in sorted[k..];
      var j :| k <= j < |sorted| && sorted[j] == x;
      assert first[i] == sorted[i];
    }
  }

  /** The first rows of two sorted permutations of the same rows share a key. */
  lemma SortedPermutationsStartAlike<T>(a: seq<T>, b: seq<T>, key: T -> int)
    requires SortedBy(a, key) && SortedBy(b, key)
    requires multiset(a) == multiset(b) && a != []
    ensures b != [] && key(a[0]) == key(b[0])
  {
    assert a[0] in multiset(b);
    var m :| 0 <= m < |b| && b[m] == a[0];
    assert b[0] in multiset(a);
    var n :| 0 <= n < |a| && a[n] == b[0];
    assert key(b[0]) <= key(b[m]);
    assert key(a[0]) <= key(a[n]);
  }

  /** Removing the same first row from two permutations of each other leaves
      permutations of each other. */
  lemma TailsPermutation<T>(a: seq<T>, b: seq<T>)
    requires multiset(a) == multiset(b) && a != [] && b != [] && a[0] == b[0]
    ensures multiset(a[1..]) == multiset(b[1..])
  {
    assert a == [a[0]] + a[1..] && b == [b[0]] + b[1..];
    assert multiset(a[1..]) == multiset(a) - multiset{a[0]};
    assert multiset(b[1..]) == multiset(b) - multiset{b[0]};
  }

  /** Two sorted permutations of the same rows are equal when no two rows
      share a key: ORDER BY on a unique column has exactly one answer. */
  lemma {:induction false} SortedPermutationUnique<T>(a: seq<T>, b: seq<T>, key: T -> int)
    requires SortedBy(a, key) && SortedBy(b, key)
    requires multiset(a) == multiset(b)
    requires forall i, j :: 0 <= i < j < |a| ==> key(a[i]) != key(a[j])
    ensures a == b
    decreases |a|
  {
    assert |a| == |multiset(a)| == |multiset(b)| == |b|;
    if a != [] {
      SortedPermutationsStartAlike(a, b, key);
      assert b[0] in multiset(a);
      var n :| 0 <= n < |a| && a[n] == b[0];
      assert n == 0;
      TailsPermutation(a, b);
      var a', b' := a[1..], b[1..];
      assert forall i, j :: 0 <= i < j < |a'| ==> key(a'[i]) != key(a'[j]) by {
        forall i, j | 0 <= i < j < |a'| ensures key(a'[i]) != key(a'[j]) {
          assert a'[i] == a[i + 1] && a'[j] == a[j + 1];
        }
      }
      SortedPermutationUnique(a', b', key);
      assert a == [a[0]] + a' && b == [b[0]] + b';
    }
  }

  /** A row found at two positions is counted at least twice. */
  lemma CountsRepeat<T>(s: seq<T>, i: nat, j: nat)
    requires i < j < |s| && s[i] == s[j]
    ensures multiset(s)[s[i]] >= 2
  {
    assert s == s[..j] + s[j..];
    assert s[i] in s[..j] && s[j] in s[j..];
  }

  /** A row counted at least twice stands at two different positions. */
  lemma {:induction false} OccursTwice<T>(s: seq<T>, x: T)
    requires multiset(s)[x] >= 2
    ensures exists i, j :: 0 <= i < j < |s| && s[i] == x && s[j] == x
  {
    assert s == [s[0]] + s[1..];
    if s[0] == x {
      assert x in multiset(s[1..]);
      var j :| 0 <= j < |s[1..]| && s[1..][j] == x;
      assert s[j + 1] == x;
    } else {
      OccursTwice(s[1..], x);
      var i, j :| 0 <= i < j < |s[1..]| && s[1..][i] == x && s[1..][j] == x;
      assert s[i + 1] == x && s[j + 1] == x;
    }
  }
}
