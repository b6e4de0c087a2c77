/** The two pandas table operations the loaders are built from, over tables
    modelled as sequences of rows:
    - `groupby(keys, as_index=False).sum()`: one row per distinct key, holding
      the sum of the value columns over the rows with that key;
    - `merge(right, on=keys, how="left")`: every left row paired with each
      right row of the same key, or with a missing value when there is none.
    `SumWhere` is the reference meaning of a group's sum: the value added up
    over exactly the rows of that key, in row order. */
module Frames {
  import opened Wrappers
  import opened Seqs

  /** How `groupby(...).sum()` sees a row: the group key it falls in, the
      value it contributes, and the addition and zero the values are summed with. */
  datatype Grouping<!T, K, !V> = Grouping(key: T -> K, val: T -> V, plus: (V, V) -> V, zero: V)

  function Add(a: int, b: int): int {
    a + b
  }

  function AddPair(a: (int, int), b: (int, int)): (int, int) {
    (a.0 + b.0, a.1 + b.1)
  }

  /** Summing one integer column. */
  function IntGrouping<T, K>(key: T -> K, val: T -> int): Grouping<T, K, int> {
    Grouping(key, val, Add, 0)
  }

  /** Two integer columns read side by side, as a two-column `sum()` sees them. */
  function PairVal<T>(v1: T -> int, v2: T -> int): T -> (int, int) {
    t => (v1(t), v2(t))
  }

  /** Summing two integer columns at once. */
  function PairGrouping<T, K>(key: T -> K, v1: T -> int, v2: T -> int): Grouping<T, K, (int, int)> {
    Grouping(key, PairVal(v1, v2), AddPair, (0, 0))
  }

  /** A column of a table. */
  function Column<T, U>(rows: seq<T>, f: T -> U): (c: seq<U>)
    ensures |c| == |rows|
    ensures forall i :: 0 <= i < |rows| ==> c[i] == f(rows[i])
  {
    seq(|rows|, i requires 0 <= i < |rows| => f(rows[i]))
  }

  /** The column of two tables stacked is the two columns stacked. */
  lemma ColumnConcat<T, U>(a: seq<T>, b: seq<T>, f: T -> U)
    ensures Column(a + b, f) == Column(a, f) + Column(b, f)
  {
  }

  /** A row kept by a filter sits, in the filtered column, right after the
      column of the kept rows before it. */
  lemma FilterColumnAt<T(!new), U>(p: T -> bool, f: T -> U, s: seq<T>, k: nat)
    requires k < |s| && p(s[k])
    ensures var c := Column(Filter(p, s), f);
            var m := |Filter(p, s[..k])|;
            m < |c| && c[m] == f(s[k]) && c[..m] == Column(Filter(p, s[..k]), f)
  {
    var front := Filter(p, s[..k]);
    var back := Filter(p, s[k..]);
    FilterSplit(p, s, k);
    ColumnConcat(front, back, f);
    var c := Column(Filter(p, s), f);
    assert c == Column(front, f) + Column(back, f);
    assert |Column(front, f)| == |front|;
  }

  /** The values of a column are the images of the rows. */
  lemma ColumnMembers<T, U(!new)>(rows: seq<T>, f: T -> U)
    ensures forall y :: y in Column(rows, f) <==> exists x :: x in rows && y == f(x)
  {
    var c := Column(rows, f);
    forall y | y in c
      ensures exists x :: x in rows && y == f(x)
    {
      var i :| 0 <= i < |c| && c[i] == y;
      assert rows[i] in rows;
    }
    forall x | x in rows
      ensures f(x) in c
    {
      var i :| 0 <= i < |rows| && rows[i] == x;
      assert c[i] == f(x);
    }
  }

  function Keys<K, V>(entries: seq<(K, V)>): (ks: seq<K>)
    ensures |ks| == |entries|
    ensures forall i :: 0 <= i < |entries| ==> ks[i] == entries[i].0
  {
    seq(|entries|, i requires 0 <= i < |entries| => entries[i].0)
  }

  /** The sum of the values of the rows whose key is `k`. */
  function SumWhere<T, K(==), V>(rows: seq<T>, g: Grouping<T, K, V>, k: K): V
    decreases |rows|
  {
    if |rows| == 0 then g.zero
    else
      var s := SumWhere(rows[..|rows| - 1], g, k);
      var last := rows[|rows| - 1];
      if g.key(last) == k then g.plus(s, g.val(last)) else s
  }

  /** A key no row carries sums to zero. */
  lemma {:induction false} SumWhereAbsent<T, K(!new), V>(rows: seq<T>, g: Grouping<T, K, V>, k: K)
    requires k !in Column(rows, g.key)
    ensures SumWhere(rows, g, k) == g.zero
    decreases |rows|
  {
    if |rows| > 0 {
      var front := rows[..|rows| - 1];
      assert Column(rows, g.key) == Column(front, g.key) + [g.key(rows[|rows| - 1])];
      SumWhereAbsent(front, g, k);
    }
  }

  /** Position of the entry with key `k`, or `|entries|` when there is none. */
  function IndexOfKey<K(==), V>(entries: seq<(K, V)>, k: K): (i: nat)
    ensures i <= |entries|
    ensures i < |entries| ==> entries[i].0 == k
    ensures forall j :: 0 <= j < i ==> entries[j].0 != k
  {
    if |entries| == 0 then 0
    else if entries[0].0 == k then 0
    else 1 + IndexOfKey(entries[1..], k)
  }

  /** One step of a hash aggregation: `v` added into the entry of `k`, or a
      new entry for `k` at the end when there is none. */
  function AddInto<K(==), V>(acc: seq<(K, V)>, k: K, v: V, plus: (V, V) -> V, zero: V): seq<(K, V)> {
    var i := IndexOfKey(acc, k);
    if i < |acc| then acc[i := (k, plus(acc[i].1, v))] else acc + [(k, plus(zero, v))]
  }

  /** The groups and sums of `groupby(key).sum()`: one entry per key, each
      with the sum of its rows' values. The entries are listed in the order
      their keys first appear, where pandas sorts them by key; every grouped
      table of the model is only read through a left merge on its unique key,
      whose rows follow the left table, so the order of the groups is never
      seen. */
  function GroupSum<T, K(==,!new), V>(rows: seq<T>, g: Grouping<T, K, V>): (groups: seq<(K, V)>)
    ensures Keys(groups) == Distinct(Column(rows, g.key))
    ensures forall i :: 0 <= i < |groups| ==> groups[i].1 == SumWhere(rows, g, groups[i].0)
    decreases |rows|
  {
    if |rows| == 0 then []
    else
      var front := rows[..|rows| - 1];
      var last := rows[|rows| - 1];
      var k := g.key(last);
      var acc := GroupSum(front, g);
      assert Column(rows, g.key)[..|rows| - 1] == Column(front, g.key);
      var groups := AddInto(acc, k, g.val(last), g.plus, g.zero);
      var i := IndexOfKey(acc, k);
      if i < |acc| then
        assert Keys(groups) == Keys(acc);
        groups
      else
        assert k !in Keys(acc);
        SumWhereAbsent(front, g, k);
        assert Keys(groups) == Keys(acc) + [k];
        groups
  }

  /** Every key of the table has exactly one group, and no group has a key the
      table lacks. */
  lemma GroupSumKeys<T, K(!new), V>(rows: seq<T>, g: Grouping<T, K, V>, k: K)
    ensures k in Keys(GroupSum(rows, g)) <==> k in Column(rows, g.key)
    ensures forall i, j :: 0 <= i < j < |GroupSum(rows, g)| ==> GroupSum(rows, g)[i].0 != GroupSum(rows, g)[j].0
  {
    var groups := GroupSum(rows, g);
    forall i, j | 0 <= i < j < |groups|
      ensures groups[i].0 != groups[j].0
    {
      assert Keys(groups)[i] == groups[i].0 && Keys(groups)[j] == groups[j].0;
    }
  }

  /** The sum of all values of a column. */
  function Total<T>(rows: seq<T>, val: T -> int): int
    decreases |rows|
  {
    if |rows| == 0 then 0 else Total(rows[..|rows| - 1], val) + val(rows[|rows| - 1])
  }

  function SumValues<K>(entries: seq<(K, int)>): int
    decreases |entries|
  {
    if |entries| == 0 then 0 else SumValues(entries[..|entries| - 1]) + entries[|entries| - 1].1
  }

  /** Adding `v` into one entry adds `v` to the sum of all entries. */
  lemma {:induction false} SumValuesUpdate<K>(entries: seq<(K, int)>, i: nat, e: (K, int))
    requires i < |entries|
    ensures SumValues(entries[i := e]) == SumValues(entries) - entries[i].1 + e.1
    decreases |entries|
  {
    var n := |entries|;
    var updated := entries[i := e];
    if i < n - 1 {
      assert updated[..n - 1] == entries[..n - 1][i := e];
      SumValuesUpdate(entries[..n - 1], i, e);
    } else {
      assert updated[..n - 1] == entries[..n - 1];
    }
  }

  /** Adding `v` into an aggregation adds `v` to the sum of its entries. */
  lemma AddIntoSum<K(!new)>(acc: seq<(K, int)>, k: K, v: int)
    ensures SumValues(AddInto(acc, k, v, Add, 0)) == SumValues(acc) + v
  {
    var i := IndexOfKey(acc, k);
    if i < |acc| {
      SumValuesUpdate(acc, i, (k, acc[i].1 + v));
    } else {
      var groups := acc + [(k, 0 + v)];
      assert groups[..|groups| - 1] == acc;
    }
  }

  /** Grouping neither loses nor double-counts a row: the group sums add up to
      the column total. */
  lemma {:induction false} GroupSumTotal<T, K(!new)>(rows: seq<T>, key: T -> K, val: T -> int)
    ensures SumValues(GroupSum(rows, IntGrouping(key, val))) == Total(rows, val)
    decreases |rows|
  {
    if |rows| > 0 {
      var g := IntGrouping(key, val);
      var front := rows[..|rows| - 1];
      var last := rows[|rows| - 1];
      GroupSumTotal(front, key, val);
      AddIntoSum(GroupSum(front, g), key(last), val(last));
    }
  }

  /** A two-column sum is the pair of the one-column sums. */
  lemma {:induction false} SumWherePair<T, K(!new)>(rows: seq<T>, key: T -> K, v1: T -> int, v2: T -> int, k: K)
    ensures SumWhere(rows, PairGrouping(key, v1, v2), k)
         == (SumWhere(rows, IntGrouping(key, v1), k), SumWhere(rows, IntGrouping(key, v2), k))
    decreases |rows|
  {
    if |rows| > 0 {
      SumWherePair(rows[..|rows| - 1], key, v1, v2, k);
    }
  }

  /** With non-negative values, a row's value is at most its group's sum, and
      group sums are non-negative. */
  lemma {:induction false} SumWhereBound<T, K(!new)>(rows: seq<T>, key: T -> K, val: T -> int, j: nat)
    requires forall i :: 0 <= i < |rows| ==> val(rows[i]) >= 0
    requires j < |rows|
    ensures 0 <= val(rows[j]) <= SumWhere(rows, IntGrouping(key, val), key(rows[j]))
    decreases |rows|
  {
    var front := rows[..|rows| - 1];
    var k := key(rows[j]);
    SumWhereNonNegative(front, key, val, k);
    if j < |rows| - 1 {
      SumWhereBound(front, key, val, j);
    }
  }

  lemma {:induction false} SumWhereNonNegative<T, K(!new)>(rows: seq<T>, key: T -> K, val: T -> int, k: K)
    requires forall i :: 0 <= i < |rows| ==> val(rows[i]) >= 0
    ensures SumWhere(rows, IntGrouping(key, val), k) >= 0
    decreases |rows|
  {
    if |rows| > 0 {
      SumWhereNonNegative(rows[..|rows| - 1], key, val, k);
    }
  }

  /** Sums depend only on the keys and values the rows present: two tables
      whose rows agree on both have the same sums. */
  lemma {:induction false} SumWhereCongruent<T, U, K(!new)>(a: seq<T>, ga: Grouping<T, K, int>,
                                                            b: seq<U>, gb: Grouping<U, K, int>, k: K)
    requires |a| == |b|
    requires forall i :: 0 <= i < |a| ==> ga.key(a[i]) == gb.key(b[i]) && ga.val(a[i]) == gb.val(b[i])
    requires ga.zero == gb.zero
    requires forall x, y :: ga.plus(x, y) == gb.plus(x, y)
    ensures SumWhere(a, ga, k) == SumWhere(b, gb, k)
    decreases |a|
  {
    if |a| > 0 {
      SumWhereCongruent(a[..|a| - 1], ga, b[..|b| - 1], gb, k);
    }
  }

  /** The rows of `right` whose key is `k`, in order. */
  function MatchesOf<R, K(==)>(right: seq<R>, rk: R -> K, k: K): (ms: seq<R>)
    ensures forall i :: 0 <= i < |ms| ==> rk(ms[i]) == k
    ensures |ms| <= |right|
    decreases |right|
  {
    if |right| == 0 then []
    else (if rk(right[0]) == k then [right[0]] else []) + MatchesOf(right[1..], rk, k)
  }

  /** A key occurs among the right rows exactly when it has a match; with
      unique right keys it has at most one. */
  lemma {:induction false} MatchesOfCount<R, K(!new)>(right: seq<R>, rk: R -> K, k: K)
    ensures |MatchesOf(right, rk, k)| > 0 <==> k in Column(right, rk)
    ensures NoDup(Column(right, rk)) ==> |MatchesOf(right, rk, k)| <= 1
    ensures |MatchesOf(right, rk, k)| == 1 ==>
              exists j :: 0 <= j < |right| && MatchesOf(right, rk, k)[0] == right[j]
    decreases |right|
  {
    if |right| > 0 {
      var tail := right[1..];
      MatchesOfCount(tail, rk, k);
      assert Column(right, rk) == [rk(right[0])] + Column(tail, rk);
      if |MatchesOf(right, rk, k)| == 1 {
        if rk(right[0]) == k {
          assert MatchesOf(right, rk, k)[0] == right[0];
        } else {
          var j :| 0 <= j < |tail| && MatchesOf(tail, rk, k)[0] == tail[j];
          assert MatchesOf(right, rk, k)[0] == right[j + 1];
        }
      }
    }
  }

  /** The matches of `k` are exactly the right rows whose key is `k`. */
  lemma {:induction false} MatchesOfIn<R, K(!new)>(right: seq<R>, rk: R -> K, k: K)
    ensures forall x :: x in MatchesOf(right, rk, k) <==> x in right && rk(x) == k
    decreases |right|
  {
    if |right| > 0 {
      MatchesOfIn(right[1..], rk, k);
      assert right == [right[0]] + right[1..];
    }
  }

  /** The first right row with key `k`, if any (a lookup in a keyed table). */
  function Find<R, K(==)>(right: seq<R>, rk: R -> K, k: K): Option<R> {
    var ms := MatchesOf(right, rk, k);
    if |ms| == 0 then None else Some(ms[0])
  }

  /** The output rows a left join produces for one left row. */
  function JoinRow<L, R>(l: L, ms: seq<R>): (out: seq<(L, Option<R>)>)
    ensures |out| == if |ms| == 0 then 1 else |ms|
    ensures forall i :: 0 <= i < |out| ==> out[i].0 == l
  {
    if |ms| == 0 then [(l, None)]
    else seq(|ms|, i requires 0 <= i < |ms| => (l, Some(ms[i])))
  }

  /** pandas `left.merge(right, on=key, how="left")`: the left rows in order,
      each paired with every right row of the same key (in right order), or
      with a missing value when no right row has its key. */
  function LeftJoin<L, R, K(==)>(left: seq<L>, right: seq<R>, lk: L -> K, rk: R -> K): (out: seq<(L, Option<R>)>)
    ensures |out| >= |left|
    decreases |left|
  {
    if |left| == 0 then []
    else JoinRow(left[0], MatchesOf(right, rk, lk(left[0]))) + LeftJoin(left[1..], right, lk, rk)
  }

  /** Output row `o` of a left join pairs a left row with a right row of the
      same key, or with nothing when no right row has that key. */
  predicate JoinedFrom<L(==), R(==), K(==)>(left: seq<L>, right: seq<R>, lk: L -> K, rk: R -> K, o: (L, Option<R>)) {
    && o.0 in left
    && (o.1.Some? ==> o.1.value in right && rk(o.1.value) == lk(o.0))
    && (o.1.None? ==> lk(o.0) !in Column(right, rk))
  }

  /** Every output row of a left join is made of a left row and one of its
      matches, and no left row is lost. */
  lemma {:induction false} LeftJoinRows<L, R, K(!new)>(left: seq<L>, right: seq<R>, lk: L -> K, rk: R -> K)
    ensures forall o :: o in LeftJoin(left, right, lk, rk) ==> JoinedFrom(left, right, lk, rk, o)
    ensures forall l :: l in left ==> exists o :: o in LeftJoin(left, right, lk, rk) && o.0 == l
    decreases |left|
  {
    if |left| > 0 {
      var l := left[0];
      var ms := MatchesOf(right, rk, lk(l));
      var head := JoinRow(l, ms);
      var tail := LeftJoin(left[1..], right, lk, rk);
      LeftJoinRows(left[1..], right, lk, rk);
      MatchesOfIn(right, rk, lk(l));
      MatchesOfCount(right, rk, lk(l));
      assert LeftJoin(left, right, lk, rk) == head + tail;
      forall o | o in head
        ensures JoinedFrom(left, right, lk, rk, o)
      {
        var i :| 0 <= i < |head| && head[i] == o;
        if |ms| > 0 {
          assert o.1 == Some(ms[i]) && ms[i] in ms;
        }
      }
      forall o | o in tail
        ensures JoinedFrom(left, right, lk, rk, o)
      {
        assert JoinedFrom(left[1..], right, lk, rk, o);
      }
      forall l' | l' in left
        ensures exists o :: o in head + tail && o.0 == l'
      {
        if l' == l {
          assert head[0] in head + tail;
        } else {
          assert l' in left[1..];
          var o :| o in tail && o.0 == l';
          assert o in head + tail;
        }
      }
    }
  }

  /** Joining on a key that is unique among the right rows keeps the left
      table's row count and order: row `i` of the output is left row `i` with
      its one match, or with nothing. */
  lemma {:induction false} LeftJoinUniqueKeys<L, R, K(!new)>(left: seq<L>, right: seq<R>, lk: L -> K, rk: R -> K)
    requires NoDup(Column(right, rk))
    ensures |LeftJoin(left, right, lk, rk)| == |left|
    ensures forall i :: 0 <= i < |left| ==>
              LeftJoin(left, right, lk, rk)[i] == (left[i], Find(right, rk, lk(left[i])))
    decreases |left|
  {
    if |left| > 0 {
      LeftJoinUniqueKeys(left[1..], right, lk, rk);
      MatchesOfCount(right, rk, lk(left[0]));
      var head := JoinRow(left[0], MatchesOf(right, rk, lk(left[0])));
      assert |head| == 1;
      assert head[0] == (left[0], Find(right, rk, lk(left[0])));
    }
  }

  /** A found row carries the key looked up and comes from the right table;
      nothing is found exactly when no right row has the key. */
  lemma FindSpec<R, K(!new)>(right: seq<R>, rk: R -> K, k: K)
    ensures Find(right, rk, k).None? <==> k !in Column(right, rk)
    ensures Find(right, rk, k).Some? ==> rk(Find(right, rk, k).value) == k
  {
    MatchesOfCount(right, rk, k);
  }

  /** The key column of a grouped table. */
  function GroupKey<K, V>(e: (K, V)): K {
    e.0
  }

  /** A grouped table has one row per key. */
  lemma GroupKeysUnique<T, K(!new), V>(rows: seq<T>, g: Grouping<T, K, V>)
    ensures NoDup(Column(GroupSum(rows, g), GroupKey))
  {
    var groups := GroupSum(rows, g);
    assert Column(groups, GroupKey) == Keys(groups);
  }

  /** Looking a key up in a grouped table gives that key's group sum, and
      finds nothing for a key no row carries. */
  lemma FindGroup<T, K(!new), V>(rows: seq<T>, g: Grouping<T, K, V>, k: K)
    ensures Find(GroupSum(rows, g), GroupKey, k) ==
              if k in Column(rows, g.key) then Some((k, SumWhere(rows, g, k))) else None
  {
    var groups := GroupSum(rows, g);
    assert Column(groups, GroupKey) == Keys(groups);
    FindSpec(groups, GroupKey, k);
    MatchesOfCount(groups, GroupKey, k);
    if k in Column(rows, g.key) {
      var j :| 0 <= j < |groups| && MatchesOf(groups, GroupKey, k)[0] == groups[j];
      assert groups[j].0 == k;
    }
  }
}
