/**
 * Index scans over a table held as a sequence of rows in creation order.
 *
 * A Convex index lookup `withIndex(..., q => q.eq(...))` returns the rows whose
 * indexed fields equal the given values, in index order; within equal index
 * values that is creation order, which is the order of the sequence here. The
 * indexed fields of a row are given by a key function.
 */
module Seqs {
  import opened Wrappers

  /** What `.unique()` sees: no row, exactly one row (at `index`), or several (it throws). */
  datatype Lookup = Absent | Unique(index: nat) | Ambiguous

  /** The rows of `s` whose key is `k`, in their order in `s` (`.collect()` on an index scan). */
  function Select<T, K(==)>(s: seq<T>, key: T -> K, k: K): (r: seq<T>)
    ensures |r| <= |s|
  {
    if s == [] then []
    else Select(s[..|s| - 1], key, k) + (if key(s[|s| - 1]) == k then [s[|s| - 1]] else [])
  }

  /** `Select` keeps exactly the rows whose key is `k`. */
  lemma {:induction false} SelectMembers<T, K>(s: seq<T>, key: T -> K, k: K)
    ensures |Select(s, key, k)| <= |s|
    ensures forall x :: x in Select(s, key, k) ==> x in s && key(x) == k
    ensures forall i :: 0 <= i < |s| && key(s[i]) == k ==> s[i] in Select(s, key, k)
  {
    if s != [] {
      var last := |s| - 1;
      SelectMembers(s[..last], key, k);
      forall x | x in s[..last] ensures x in s {
        var j :| 0 <= j < last && s[..last][j] == x;
        assert s[j] == x;
      }
      forall i | 0 <= i < last && key(s[i]) == k ensures s[i] in Select(s, key, k) {
        assert s[..last][i] == s[i];
      }
    }
  }

  /** Number of rows of `s` whose key is `k`. */
  function Count<T, K(==)>(s: seq<T>, key: T -> K, k: K): nat {
    |Select(s, key, k)|
  }

  /** The positions in `s` of the rows that `Select` keeps, in increasing order. */
  function Positions<T, K(==)>(s: seq<T>, key: T -> K, k: K): seq<nat> {
    if s == [] then []
    else Positions(s[..|s| - 1], key, k) + (if key(s[|s| - 1]) == k then [|s| - 1] else [])
  }

  lemma {:induction false} PositionsCorrect<T, K>(s: seq<T>, key: T -> K, k: K)
    ensures var r := Positions(s, key, k);
      && |r| == Count(s, key, k)
      && (forall j :: 0 <= j < |r| ==> r[j] < |s| && s[r[j]] == Select(s, key, k)[j] && key(s[r[j]]) == k)
      && (forall j, l :: 0 <= j < l < |r| ==> r[j] < r[l])
      && (forall i :: 0 <= i < |s| && key(s[i]) == k ==> i in r)
  {
    if s != [] {
      var last := |s| - 1;
      var front := s[..last];
      PositionsCorrect(front, key, k);
      var p := Positions(front, key, k);
      var sel := Select(front, key, k);
      assert Select(s, key, k) == sel + (if key(s[last]) == k then [s[last]] else []);
      assert Positions(s, key, k) == p + (if key(s[last]) == k then [last] else []);
      forall j | 0 <= j < |p| ensures p[j] < last && s[p[j]] == Select(s, key, k)[j] && key(s[p[j]]) == k {
        assert front[p[j]] == s[p[j]];
      }
      forall i | 0 <= i < |s| && key(s[i]) == k ensures i in Positions(s, key, k) {
        if i < last {
          assert front[i] == s[i];
        }
      }
    }
  }

  /** The rows of `s` whose key is not `k`, in their order in `s` (a delete by id). */
  function Except<T, K(==)>(s: seq<T>, key: T -> K, k: K): seq<T> {
    if s == [] then []
    else Except(s[..|s| - 1], key, k) + (if key(s[|s| - 1]) != k then [s[|s| - 1]] else [])
  }

  /** The lookup `.unique()` performs on an index scan. */
  function Find<T, K(==)>(s: seq<T>, key: T -> K, k: K): (r: Lookup)
    ensures r.Absent? <==> forall i :: 0 <= i < |s| ==> key(s[i]) != k
    ensures r.Absent? <==> Count(s, key, k) == 0
    ensures r.Unique? <==> Count(s, key, k) == 1
    ensures r.Unique? ==> r.index < |s| && key(s[r.index]) == k
    ensures r.Unique? ==> forall i :: 0 <= i < |s| && i != r.index ==> key(s[i]) != k
    ensures r.Ambiguous? <==> exists i, j :: 0 <= i < j < |s| && key(s[i]) == k && key(s[j]) == k
  {
    var p := Positions(s, key, k);
    PositionsCorrect(s, key, k);
    if |p| == 0 then Absent
    else if |p| == 1 then
      assert forall i :: 0 <= i < |s| && i != p[0] ==> key(s[i]) != k;
      Unique(p[0])
    else
      assert p[0] < p[1] && key(s[p[0]]) == k && key(s[p[1]]) == k;
      Ambiguous
  }

  /** The row `.unique()` finds is the whole of the index scan. */
  lemma {:induction false} UniqueSelect<T, K>(s: seq<T>, key: T -> K, k: K)
    requires Find(s, key, k).Unique?
    ensures Select(s, key, k) == [s[Find(s, key, k).index]]
  {
    PositionsCorrect(s, key, k);
    var p := Positions(s, key, k);
    assert p[0] == Find(s, key, k).index;
  }

  /** An index scan over rows that all carry the key returns them all. */
  lemma {:induction false} SelectAll<T, K>(s: seq<T>, key: T -> K, k: K)
    requires forall i :: 0 <= i < |s| ==> key(s[i]) == k
    ensures Select(s, key, k) == s
  {
    if s != [] {
      SelectAll(s[..|s| - 1], key, k);
    }
  }

  /** An index scan over rows none of which carries the key returns nothing. */
  lemma {:induction false} SelectNone<T, K>(s: seq<T>, key: T -> K, k: K)
    requires forall i :: 0 <= i < |s| ==> key(s[i]) != k
    ensures Select(s, key, k) == []
  {
    if s != [] {
      SelectNone(s[..|s| - 1], key, k);
    }
  }

  /** `.unique()` looks only at keys: tables with the same keys row by row give the same answer. */
  lemma FindSameKeys<T, K>(s: seq<T>, t: seq<T>, key: T -> K, k: K)
    requires |s| == |t| && forall i :: 0 <= i < |s| ==> key(s[i]) == key(t[i])
    ensures Find(s, key, k) == Find(t, key, k)
  {
    var a, b := Find(s, key, k), Find(t, key, k);
    if a.Ambiguous? {
      var i, j :| 0 <= i < j < |s| && key(s[i]) == k && key(s[j]) == k;
      assert key(t[i]) == k && key(t[j]) == k;
    }
  }

  /** The first row of `s` whose key is `k` (`ctx.db.get` by id). */
  function Get<T, K(==)>(s: seq<T>, key: T -> K, k: K): (r: Option<T>)
    ensures r.None? <==> forall i :: 0 <= i < |s| ==> key(s[i]) != k
    ensures r.Some? ==> r.value in s && key(r.value) == k
  {
    if s == [] then None
    else if key(s[0]) == k then Some(s[0])
    else Get(s[1..], key, k)
  }

  /** With distinct keys, `Get` returns the one row that carries the key. */
  lemma {:induction false} GetUnique<T, K>(s: seq<T>, key: T -> K, k: K)
    ensures KeysDistinct(s, key) ==> forall i :: 0 <= i < |s| && key(s[i]) == k ==> Get(s, key, k) == Some(s[i])
  {
    if KeysDistinct(s, key) {
      forall i | 0 <= i < |s| && key(s[i]) == k ensures Get(s, key, k) == Some(s[i]) {
        var g := Get(s, key, k);
        var j :| 0 <= j < |s| && s[j] == g.value;
      }
    }
  }

  /** No two rows of `s` share a key. */
  predicate KeysDistinct<T, K(==)>(s: seq<T>, key: T -> K) {
    forall i, j :: 0 <= i < j < |s| ==> key(s[i]) != key(s[j])
  }

  /** Keys strictly increase along `s`, as ids do along a table in creation order. */
  predicate Increasing<T>(s: seq<T>, key: T -> nat) {
    forall i, j :: 0 <= i < j < |s| ==> key(s[i]) < key(s[j])
  }

  /** Every key in `s` is below `n`. */
  predicate Below<T>(s: seq<T>, key: T -> nat, n: nat) {
    forall i :: 0 <= i < |s| ==> key(s[i]) < n
  }

  /** Rows with distinct keys stay distinct after one row is dropped. */
  lemma DistinctWithout<T, K>(rows: seq<T>, i: nat, key: T -> K)
    requires KeysDistinct(rows, key) && i < |rows|
    ensures KeysDistinct(rows[..i] + rows[i + 1..], key)
  {
    var r := rows[..i] + rows[i + 1..];
    forall a | 0 <= a < |r| ensures r[a] == rows[if a < i then a else a + 1] {
    }
  }

  /** Selecting from a concatenation selects from each part. */
  lemma {:induction false} SelectAppend<T, K>(a: seq<T>, b: seq<T>, key: T -> K, k: K)
    ensures Select(a + b, key, k) == Select(a, key, k) + Select(b, key, k)
  {
    if b != [] {
      var last := |b| - 1;
      assert (a + b)[..|a + b| - 1] == a + b[..last];
      assert (a + b)[|a + b| - 1] == b[last];
      SelectAppend(a, b[..last], key, k);
    } else {
      assert a + b == a;
    }
  }

  /** Removing or replacing one row that `Select` skips does not change the selection. */
  lemma {:induction false} SelectWithout<T, K>(s: seq<T>, i: nat, key: T -> K, k: K)
    requires i < |s| && key(s[i]) != k
    ensures Select(s[..i] + s[i + 1..], key, k) == Select(s, key, k)
  {
    var a, b := s[..i], s[i + 1..];
    assert s == (a + [s[i]]) + b;
    SelectAppend(a + [s[i]], b, key, k);
    SelectAppend(a, [s[i]], key, k);
    SelectAppend(a, b, key, k);
    assert Select([s[i]], key, k) == Select([], key, k) + [];
  }

  /** Dropping row `i` keeps every other row and leaves no row with the key only row `i` had. */
  lemma WithoutRow<T, K>(s: seq<T>, i: nat, rest: seq<T>, key: T -> K, k: K)
    requires i < |s| && rest == s[..i] + s[i + 1..]
    requires forall j :: 0 <= j < |s| && j != i ==> key(s[j]) != k
    ensures forall j :: 0 <= j < |rest| ==> key(rest[j]) != k
    ensures forall j :: 0 <= j < |s| && j != i ==> s[j] in rest
  {
    forall j | 0 <= j < |rest| ensures rest[j] == s[if j < i then j else j + 1] {
    }
    forall j | 0 <= j < |s| && j != i ensures s[j] in rest {
      assert s[j] == rest[if j < i then j else j - 1];
    }
  }

  /** Replacing a row that `Select` skips by another it skips does not change the selection. */
  lemma {:induction false} SelectUpdate<T, K>(s: seq<T>, i: nat, x: T, key: T -> K, k: K)
    requires i < |s| && key(s[i]) != k && key(x) != k
    ensures Select(s[i := x], key, k) == Select(s, key, k)
  {
    var t := s[i := x];
    assert t[..i] == s[..i] && t[i + 1..] == s[i + 1..];
    SelectWithout(s, i, key, k);
    SelectWithout(t, i, key, k);
  }

  /** Deleting by a key that only row `i` has removes exactly row `i`. */
  lemma {:induction false} ExceptAt<T, K>(s: seq<T>, i: nat, key: T -> K)
    requires KeysDistinct(s, key) && i < |s|
    ensures Except(s, key, key(s[i])) == s[..i] + s[i + 1..]
  {
    var last := |s| - 1;
    var front := s[..last];
    assert KeysDistinct(front, key);
    if i == last {
      ExceptAbsent(front, key, key(s[i]));
      assert s[..i] + s[i + 1..] == front;
    } else {
      ExceptAt(front, i, key);
      assert front[i] == s[i];
      assert s[..i] + s[i + 1..] == front[..i] + front[i + 1..] + [s[last]];
    }
  }

  /** Deleting by a key no row has changes nothing. */
  lemma {:induction false} ExceptAbsent<T, K>(s: seq<T>, key: T -> K, k: K)
    requires forall i :: 0 <= i < |s| ==> key(s[i]) != k
    ensures Except(s, key, k) == s
  {
    if s != [] {
      var last := |s| - 1;
      ExceptAbsent(s[..last], key, k);
      assert s[..last] + [s[last]] == s;
    }
  }

  /** Lexicographic order on (primary, tie-break) pairs, the order of a two-field index. */
  predicate LexLe(a: (int, int), b: (int, int)) {
    a.0 < b.0 || (a.0 == b.0 && a.1 <= b.1)
  }

  predicate SortedBy<T>(s: seq<T>, key: T -> (int, int)) {
    forall i, j :: 0 <= i < j < |s| ==> LexLe(key(s[i]), key(s[j]))
  }

  /** `x` placed before the first row of sorted `s` that it does not follow. */
  function InsertSorted<T>(x: T, s: seq<T>, key: T -> (int, int)): seq<T> {
    if s == [] then [x]
    else if LexLe(key(x), key(s[0])) then [x] + s
    else [s[0]] + InsertSorted(x, s[1..], key)
  }

  /** The rows of `s` in index order of `key` (insertion sort). */
  function SortBy<T>(s: seq<T>, key: T -> (int, int)): seq<T> {
    if s == [] then []
    else InsertSorted(s[|s| - 1], SortBy(s[..|s| - 1], key), key)
  }

  lemma {:induction false} InsertSortedMembers<T>(x: T, s: seq<T>, key: T -> (int, int))
    ensures forall y :: y in InsertSorted(x, s, key) ==> y == x || y in s
  {
    if s != [] && !LexLe(key(x), key(s[0])) {
      InsertSortedMembers(x, s[1..], key);
      forall y | y in s[1..] ensures y in s {
        var j :| 0 <= j < |s[1..]| && s[1..][j] == y;
        assert s[j + 1] == y;
      }
    }
  }

  lemma {:induction false} InsertSortedPermutes<T>(x: T, s: seq<T>, key: T -> (int, int))
    ensures multiset(InsertSorted(x, s, key)) == multiset(s) + multiset{x}
  {
    if s != [] && !LexLe(key(x), key(s[0])) {
      InsertSortedPermutes(x, s[1..], key);
      assert s == [s[0]] + s[1..];
    }
  }

  lemma {:induction false} InsertSortedSorts<T>(x: T, s: seq<T>, key: T -> (int, int))
    requires SortedBy(s, key)
    ensures SortedBy(InsertSorted(x, s, key), key)
  {
    if s == [] {
    } else if LexLe(key(x), key(s[0])) {
      var r := [x] + s;
      forall i, j | 0 <= i < j < |r| ensures LexLe(key(r[i]), key(r[j])) {
        if i == 0 && j > 1 {
          assert LexLe(key(s[0]), key(s[j - 1]));
        }
      }
    } else {
      var rest := InsertSorted(x, s[1..], key);
      InsertSortedSorts(x, s[1..], key);
      InsertSortedMembers(x, s[1..], key);
      forall y | y in rest ensures LexLe(key(s[0]), key(y)) {
        if y != x {
          var j :| 0 <= j < |s[1..]| && s[1..][j] == y;
          assert s[j + 1] == y;
        }
      }
      var r := [s[0]] + rest;
      forall i, j | 0 <= i < j < |r| ensures LexLe(key(r[i]), key(r[j])) {
        if i == 0 {
          assert r[j] in rest;
        } else {
          assert r[i] == rest[i - 1] && r[j] == rest[j - 1];
        }
      }
    }
  }

  /** Sorting orders the rows by key and keeps every row, as many times as it occurs. */
  lemma {:induction false} SortByCorrect<T>(s: seq<T>, key: T -> (int, int))
    ensures SortedBy(SortBy(s, key), key)
    ensures multiset(SortBy(s, key)) == multiset(s)
    ensures |SortBy(s, key)| == |s|
  {
    if s != [] {
      var last := |s| - 1;
      SortByCorrect(s[..last], key);
      InsertSortedSorts(s[last], SortBy(s[..last], key), key);
      InsertSortedPermutes(s[last], SortBy(s[..last], key), key);
      assert s == s[..last] + [s[last]];
    }
    assert |multiset(SortBy(s, key))| == |SortBy(s, key)|;
  }
}
