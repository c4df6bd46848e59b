/** How the store lists a table: a scan in ascending primary-key order
    (SQLite visits an INTEGER PRIMARY KEY table in rowid order), an
    `ORDER BY` that is a stable sort of that scan, and a `WHERE` that keeps
    the rows a condition accepts. */
module Listing {
  import opened Common

  lemma HasElement(s: set<int>)
    requires s != {}
    ensures exists x :: x in s
  {
    assert (forall x :: x in s <==> x in {}) ==> s == {};
  }

  /** Every non-empty set of keys has a smallest element. */
  lemma {:induction false} LeastExists(s: set<int>)
    requires s != {}
    ensures exists m :: m in s && forall k :: k in s ==> m <= k
    decreases |s|
  {
    HasElement(s);
    var x :| x in s;
    var rest := s - {x};
    assert forall k :: k in s ==> k == x || k in rest;
    if rest == {} {
      assert forall k :: k in s ==> x <= k;
    } else {
      LeastExists(rest);
      var m :| m in rest && forall k :: k in rest ==> m <= k;
      var least := if x < m then x else m;
      assert least in s && forall k :: k in s ==> least <= k;
    }
  }

  /** The smallest key of a non-empty key set. */
  function Least(s: set<int>): (m: int)
    requires s != {}
    ensures m in s
    ensures forall k :: k in s ==> m <= k
  {
    LeastExists(s);
    var m :| m in s && forall k :: k in s ==> m <= k;
    m
  }

  /** The keys of a table in the order a primary-key scan visits them. */
  function Ascending(s: set<int>): (r: seq<int>)
    ensures forall i, j :: 0 <= i < j < |r| ==> r[i] < r[j]
    ensures |r| == |s|
    ensures forall k :: k in r <==> k in s
    decreases s
  {
    if s == {} then []
    else
      var m := Least(s);
      [m] + Ascending(s - {m})
  }

  /** Every row of a table, in primary-key order. */
  function RowsOf<V(!new)>(m: map<int, V>): (r: seq<Row<V>>)
    ensures forall i, j :: 0 <= i < j < |r| ==> r[i].id < r[j].id
    ensures Distinct(r)
    ensures |r| == |m|
    ensures forall row :: row in r <==> row.id in m && row.value == m[row.id]
  {
    var ks := Ascending(m.Keys);
    var r := seq(|ks|, i requires 0 <= i < |ks| => Row(ks[i], m[ks[i]]));
    RowsAtKeys(m, ks, r);
    r
  }

  /** The rows of `m` under the keys `ks`, one per key, are exactly the
      table's rows when `ks` lists every key. */
  lemma RowsAtKeys<V(!new)>(m: map<int, V>, ks: seq<int>, r: seq<Row<V>>)
    requires forall k :: k in ks <==> k in m
    requires |r| == |ks|
    requires forall i :: 0 <= i < |ks| ==> ks[i] in m && r[i] == Row(ks[i], m[ks[i]])
    ensures forall row :: row in r <==> row.id in m && row.value == m[row.id]
  {
    forall row: Row<V> | row.id in m && row.value == m[row.id]
      ensures row in r
    {
      var i :| 0 <= i < |ks| && ks[i] == row.id;
      assert r[i] == row;
    }
  }

  /** Places `x` in front of the first element it may precede. */
  function Insert<T>(x: T, s: seq<T>, before: (T, T) -> bool): (r: seq<T>)
    ensures multiset(r) == multiset(s) + multiset{x}
    ensures |r| == |s| + 1
    ensures r[0] == x || (s != [] && r[0] == s[0])
  {
    if s == [] || before(x, s[0]) then [x] + s
    else
      assert s == [s[0]] + s[1..];
      [s[0]] + Insert(x, s[1..], before)
  }

  /** A stable insertion sort: elements that tie keep their input order. */
  function SortBy<T(!new)>(s: seq<T>, before: (T, T) -> bool): (r: seq<T>)
    ensures multiset(r) == multiset(s)
    ensures forall x :: x in r <==> x in s
    ensures |r| == |s|
  {
    if s == [] then []
    else
      assert s == [s[0]] + s[1..];
      var r := Insert(s[0], SortBy(s[1..], before), before);
      assert forall x :: x in r <==> x in multiset(r);
      assert forall x :: x in s <==> x in multiset(s);
      r
  }

  /** Keys strictly increasing along the listing. */
  predicate KeysAscending<V>(s: seq<Row<V>>) {
    forall i, j :: 0 <= i < j < |s| ==> s[i].id < s[j].id
  }

  /** The rows `keep` accepts, in their original order. */
  function Filter<T(!new)>(s: seq<T>, keep: T -> bool): (r: seq<T>)
    ensures forall x :: x in r <==> x in s && keep(x)
    ensures |r| <= |s|
  {
    if s == [] then []
    else (if keep(s[0]) then [s[0]] else []) + Filter(s[1..], keep)
  }

  /** Keeping some rows of a listing in key order leaves them in key order. */
  lemma {:induction false} FilterKeepsAscending<V(!new)>(rows: seq<Row<V>>, keep: Row<V> -> bool)
    requires KeysAscending(rows)
    ensures KeysAscending(Filter(rows, keep))
  {
    if rows != [] {
      var x, rest := rows[0], rows[1..];
      FilterKeepsAscending(rest, keep);
      var tail := Filter(rest, keep);
      forall y | y in tail ensures x.id < y.id {
        var k :| 0 <= k < |rest| && rest[k] == y;
        assert rows[k + 1] == y;
      }
      if keep(x) {
        ConsKeysAscending(x, tail);
      }
    }
  }

  /** A row in front of a listing whose keys all exceed its own. */
  lemma ConsKeysAscending<V>(x: Row<V>, tail: seq<Row<V>>)
    requires KeysAscending(tail)
    requires forall y :: y in tail ==> x.id < y.id
    ensures KeysAscending([x] + tail)
  {
    var r := [x] + tail;
    forall i, j | 0 <= i < j < |r| ensures r[i].id < r[j].id {
      assert r[j] == tail[j - 1];
      if i > 0 {
        assert r[i] == tail[i - 1];
      }
    }
  }

  ghost predicate Total<T(!new)>(before: (T, T) -> bool) {
    forall a, b :: before(a, b) || before(b, a)
  }

  ghost predicate Transitive<T(!new)>(before: (T, T) -> bool) {
    forall a, b, c :: before(a, b) && before(b, c) ==> before(a, c)
  }

  ghost predicate Chained<T>(s: seq<T>, before: (T, T) -> bool) {
    forall i :: 0 < i < |s| ==> before(s[i - 1], s[i])
  }

  ghost predicate Ordered<T>(s: seq<T>, before: (T, T) -> bool) {
    forall i, j :: 0 <= i < j < |s| ==> before(s[i], s[j])
  }

  ghost predicate Distinct<T>(s: seq<T>) {
    forall i, j :: 0 <= i < j < |s| ==> s[i] != s[j]
  }

  /** Rows that are all copies of table entries and pairwise distinct have
      pairwise distinct keys. */
  lemma DistinctKeys<V>(r: seq<Row<V>>, m: map<int, V>)
    requires Distinct(r)
    requires forall row :: row in r ==> row.id in m && row.value == m[row.id]
    ensures forall i, j :: 0 <= i < j < |r| ==> r[i].id != r[j].id
  {
    forall i, j | 0 <= i < j < |r|
      ensures r[i].id != r[j].id
    {
      assert r[i] in r && r[j] in r;
    }
  }

  lemma {:induction false} InsertChained<T(!new)>(x: T, s: seq<T>, before: (T, T) -> bool)
    requires Total(before) && Chained(s, before)
    ensures Chained(Insert(x, s, before), before)
  {
    if s == [] || before(x, s[0]) {
    } else {
      InsertChained(x, s[1..], before);
      assert before(s[0], x);
    }
  }

  lemma {:induction false} SortByChained<T(!new)>(s: seq<T>, before: (T, T) -> bool)
    requires Total(before)
    ensures Chained(SortBy(s, before), before)
  {
    if s != [] {
      SortByChained(s[1..], before);
      InsertChained(s[0], SortBy(s[1..], before), before);
    }
  }

  lemma {:induction false} ChainedOrdered<T(!new)>(s: seq<T>, before: (T, T) -> bool)
    requires Transitive(before) && Chained(s, before)
    ensures Ordered(s, before)
  {
    if |s| > 1 {
      ChainedOrdered(s[1..], before);
      forall i, j | 0 <= i < j < |s|
        ensures before(s[i], s[j])
      {
        if i == 0 && j > 1 {
          assert before(s[0], s[1]) && before(s[1], s[j]);
        } else if i > 0 {
          assert s[i] == s[1..][i - 1] && s[j] == s[1..][j - 1];
        }
      }
    }
  }

  /** Sorting by a total preorder yields a sequence ordered by it. */
  lemma SortByOrdered<T(!new)>(s: seq<T>, before: (T, T) -> bool)
    requires Total(before) && Transitive(before)
    ensures Ordered(SortBy(s, before), before)
  {
    SortByChained(s, before);
    ChainedOrdered(SortBy(s, before), before);
  }

  lemma {:induction false} InsertDistinct<T>(x: T, s: seq<T>, before: (T, T) -> bool)
    requires Distinct(s) && x !in s
    ensures Distinct(Insert(x, s, before))
  {
    if s == [] || before(x, s[0]) {
    } else {
      InsertDistinct(x, s[1..], before);
      var t := Insert(x, s[1..], before);
      assert s[0] !in s[1..];
      assert s[0] !in multiset(t);
      var r := [s[0]] + t;
      forall i, j | 0 <= i < j < |r|
        ensures r[i] != r[j]
      {
        if i == 0 {
          assert r[j] == t[j - 1];
        } else {
          assert r[i] == t[i - 1] && r[j] == t[j - 1];
        }
      }
    }
  }

  /** Sorting does not duplicate anything. */
  lemma {:induction false} SortByDistinct<T(!new)>(s: seq<T>, before: (T, T) -> bool)
    requires Distinct(s)
    ensures Distinct(SortBy(s, before))
  {
    if s != [] {
      assert Distinct(s[1..]) by {
        forall i, j | 0 <= i < j < |s[1..]|
          ensures s[1..][i] != s[1..][j]
        {
          assert s[1..][i] == s[i + 1] && s[1..][j] == s[j + 1];
        }
      }
      SortByDistinct(s[1..], before);
      assert s[0] !in s[1..];
      assert s[0] !in multiset(SortBy(s[1..], before));
      InsertDistinct(s[0], SortBy(s[1..], before), before);
    }
  }

  /** Inserting a row the filter rejects does not change what the filter keeps. */
  lemma {:induction false} FilterInsertSkipped<T(!new)>(x: T, s: seq<T>, before: (T, T) -> bool, keep: T -> bool)
    requires !keep(x)
    ensures Filter(Insert(x, s, before), keep) == Filter(s, keep)
  {
    if s == [] || before(x, s[0]) {
      var r := [x] + s;
      assert r[0] == x && r[1..] == s;
    } else {
      FilterInsertSkipped(x, s[1..], before, keep);
      FilterCons(s[0], Insert(x, s[1..], before), keep);
      FilterCons(s[0], s[1..], keep);
      assert s == [s[0]] + s[1..];
    }
  }

  /** Once `x` may precede an element of `s`, it may precede every later one. */
  ghost predicate Upward<T>(x: T, s: seq<T>, before: (T, T) -> bool) {
    forall i, j :: 0 <= i <= j < |s| && before(x, s[i]) ==> before(x, s[j])
  }

  lemma OrderedUpward<T(!new)>(x: T, s: seq<T>, before: (T, T) -> bool)
    requires Transitive(before) && Ordered(s, before)
    ensures Upward(x, s, before)
  {
    forall i, j | 0 <= i <= j < |s| && before(x, s[i])
      ensures before(x, s[j])
    {
      if i < j {
        assert before(s[i], s[j]);
      }
    }
  }

  /** One step of `Filter`, written as a concatenation. */
  lemma FilterCons<T(!new)>(x: T, s: seq<T>, keep: T -> bool)
    ensures Filter([x] + s, keep) == (if keep(x) then [x] else []) + Filter(s, keep)
  {
    var r := [x] + s;
    assert r[0] == x && r[1..] == s;
  }

  /** One step of `Insert` past an element `x` may not precede. */
  lemma InsertPast<T>(x: T, y: T, s: seq<T>, before: (T, T) -> bool)
    requires !before(x, y)
    ensures Insert(x, [y] + s, before) == [y] + Insert(x, s, before)
  {
    var r := [y] + s;
    assert r[0] == y && r[1..] == s;
  }

  /** Inserting a row the filter keeps inserts it into the filtered rows. */
  lemma {:induction false} FilterInsertKept<T(!new)>(x: T, s: seq<T>, before: (T, T) -> bool, keep: T -> bool)
    requires Upward(x, s, before) && keep(x)
    ensures Filter(Insert(x, s, before), keep) == Insert(x, Filter(s, keep), before)
  {
    var f := Filter(s, keep);
    if s == [] || before(x, s[0]) {
      FilterCons(x, s, keep);
      if f != [] {
        assert f[0] in s;
        var j :| 0 <= j < |s| && s[j] == f[0];
        assert before(x, s[j]);
      }
    } else {
      var y, t := s[0], s[1..];
      assert s == [y] + t;
      assert Upward(x, t, before) by {
        forall i, j | 0 <= i <= j < |t| && before(x, t[i])
          ensures before(x, t[j])
        {
          assert t[i] == s[i + 1] && t[j] == s[j + 1];
        }
      }
      FilterInsertKept(x, t, before, keep);
      FilterCons(y, Insert(x, t, before), keep);
      FilterCons(y, t, keep);
      if keep(y) {
        InsertPast(x, y, Filter(t, keep), before);
      } else {
        assert f == Filter(t, keep);
      }
    }
  }

  /** Any element may be inserted into a sorted sequence by `Insert`'s
      first-fit scan. */
  lemma SortedUpward<T(!new)>(x: T, t: seq<T>, before: (T, T) -> bool)
    requires Total(before) && Transitive(before)
    ensures Upward(x, SortBy(t, before), before)
  {
    SortByOrdered(t, before);
    OrderedUpward(x, SortBy(t, before), before);
  }

  /** `SortBy` on an element in front: insert it into the sorted rest. */
  lemma SortByCons<T(!new)>(x: T, t: seq<T>, before: (T, T) -> bool)
    ensures SortBy([x] + t, before) == Insert(x, SortBy(t, before), before)
  {
    var s := [x] + t;
    assert s[0] == x && s[1..] == t;
  }

  /** The inductive step of `FilterSortBy`: one more element in front. */
  lemma FilterSortByStep<T(!new)>(x: T, t: seq<T>, before: (T, T) -> bool, keep: T -> bool)
    requires Upward(x, SortBy(t, before), before)
    requires Filter(SortBy(t, before), keep) == SortBy(Filter(t, keep), before)
    ensures Filter(SortBy([x] + t, before), keep) == SortBy(Filter([x] + t, keep), before)
  {
    var sorted := SortBy(t, before);
    SortByCons(x, t, before);
    FilterCons(x, t, keep);
    if keep(x) {
      calc {
        Filter(SortBy([x] + t, before), keep);
        Filter(Insert(x, sorted, before), keep);
        { FilterInsertKept(x, sorted, before, keep); }
        Insert(x, Filter(sorted, keep), before);
        Insert(x, SortBy(Filter(t, keep), before), before);
        { SortByCons(x, Filter(t, keep), before); }
        SortBy([x] + Filter(t, keep), before);
        SortBy(Filter([x] + t, keep), before);
      }
    } else {
      calc {
        Filter(SortBy([x] + t, before), keep);
        Filter(Insert(x, sorted, before), keep);
        { FilterInsertSkipped(x, sorted, before, keep); }
        Filter(sorted, keep);
        SortBy(Filter(t, keep), before);
        { assert Filter([x] + t, keep) == [] + Filter(t, keep) == Filter(t, keep); }
        SortBy(Filter([x] + t, keep), before);
      }
    }
  }

  /** A stable sort commutes with a filter: selecting rows and then sorting
      them gives the same sequence as sorting all rows and then selecting. */
  lemma {:induction false} FilterSortBy<T(!new)>(s: seq<T>, before: (T, T) -> bool, keep: T -> bool)
    requires Total(before) && Transitive(before)
    ensures Filter(SortBy(s, before), keep) == SortBy(Filter(s, keep), before)
  {
    if s != [] {
      var x, t := s[0], s[1..];
      FilterSortBy(t, before, keep);
      SortedUpward(x, t, before);
      FilterSortByStep(x, t, before, keep);
      assert s == [x] + t;
    }
  }

  /** A listing in strictly increasing key order is determined by the rows
      it holds. */
  lemma {:induction false} SameAscendingRows<V>(a: seq<Row<V>>, b: seq<Row<V>>)
    requires KeysAscending(a) && KeysAscending(b)
    requires forall x :: x in a <==> x in b
    ensures a == b
    decreases |a|
  {
    if a != [] || b != [] {
      assert a != [] ==> a[0] in b;
      assert b != [] ==> b[0] in a;
      var i :| 0 <= i < |b| && b[i] == a[0];
      var j :| 0 <= j < |a| && a[j] == b[0];
      assert b[0].id <= b[i].id && a[0].id <= a[j].id;
      assert i == 0;
      forall x ensures x in a[1..] <==> x in b[1..] {
        if x in a[1..] {
          var k :| 0 <= k < |a[1..]| && a[1..][k] == x;
          assert a[k + 1] == x && a[0].id < x.id;
          assert x in b;
        }
        if x in b[1..] {
          var k :| 0 <= k < |b[1..]| && b[1..][k] == x;
          assert b[k + 1] == x && b[0].id < x.id;
          assert x in a;
        }
      }
      SameAscendingRows(a[1..], b[1..]);
      assert a == [a[0]] + a[1..] && b == [b[0]] + b[1..];
    }
  }

  /** Listing the rows of a part of a table is listing the table and
      keeping the rows of that part. */
  lemma RowsOfPart<V(!new)>(m: map<int, V>, part: map<int, V>, keep: Row<V> -> bool)
    requires forall k :: k in part <==> k in m && keep(Row(k, m[k]))
    requires forall k :: k in part ==> part[k] == m[k]
    ensures RowsOf(part) == Filter(RowsOf(m), keep)
  {
    FilterKeepsAscending(RowsOf(m), keep);
    SameAscendingRows(RowsOf(part), Filter(RowsOf(m), keep));
  }

  /** The rows a `DELETE ... WHERE` on the key `id` leaves behind. */
  function KeyOtherThan<V>(id: int): (keep: Row<V> -> bool) {
    (row: Row<V>) => row.id != id
  }
}
