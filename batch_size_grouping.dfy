/**
 * The data preparation of the batch-size comparison script
 * (visualization/different_batch_size_visualization.py): the accuracy
 * columns lose their trailing percent signs, in place, and the rows are
 * then grouped by batch size into a dictionary whose keys follow the order
 * in which each batch size first appears. Reading the CSV file and parsing
 * numbers are abstracted away: a row keeps its batch size as an integer and
 * every other column as text.
 */
module BatchSizeGrouping {

  /** One line of the experiment log. */
  datatype Row = Row(epoch: string, batchSize: int, trainLoss: string, trainAccuracy: string, testAccuracy: string)

  // ---------------------------------------------------------------------
  // Stripping the percent signs (str.rstrip('%'))
  // ---------------------------------------------------------------------

  /** Every character of `s` from position `from` on is a '%'. */
  ghost predicate AllPercent(s: string, from: nat)
  {
    forall i :: from <= i < |s| ==> s[i] == '%'
  }

  /**
   * `s` without its trailing '%' characters: a prefix of `s` followed in `s`
   * only by '%', and not itself ending in '%'.
   */
  function RStripPercent(s: string): (r: string)
    ensures r <= s
    ensures AllPercent(s, |r|)
    ensures r == [] || r[|r| - 1] != '%'
  {
    if s != [] && s[|s| - 1] == '%' then RStripPercent(s[..|s| - 1]) else s
  }

  /** The three properties of RStripPercent's contract single out its result. */
  lemma RStripPercentUnique(s: string, p: string)
    requires p <= s && AllPercent(s, |p|)
    requires p == [] || p[|p| - 1] != '%'
    ensures RStripPercent(s) == p
  {
  }

  /** A string that does not end in '%' is left as it is; stripping twice is stripping once. */
  lemma RStripPercentStable(s: string)
    ensures (s == [] || s[|s| - 1] != '%') ==> RStripPercent(s) == s
    ensures RStripPercent(RStripPercent(s)) == RStripPercent(s)
  {
  }

  /** Any number of percent signs after a value that does not end in '%' is removed, and only they are. */
  lemma {:induction false} RStripPercentOfValue(v: string, n: nat)
    requires v == [] || v[|v| - 1] != '%'
    ensures RStripPercent(v + seq(n, _ => '%')) == v
  {
    var s := v + seq(n, _ => '%');
    RStripPercentUnique(s, v);
  }

  /** The row with both accuracy columns stripped; every other column is untouched. */
  function StripAccuracy(row: Row): (r: Row)
    ensures r.epoch == row.epoch && r.batchSize == row.batchSize && r.trainLoss == row.trainLoss
    ensures r.trainAccuracy == RStripPercent(row.trainAccuracy)
    ensures r.testAccuracy == RStripPercent(row.testAccuracy)
  {
    row.(trainAccuracy := RStripPercent(row.trainAccuracy), testAccuracy := RStripPercent(row.testAccuracy))
  }

  /** Rewrites both accuracy columns of the table in place, as the two column assignments do. */
  method StripAccuracyColumns(df: array<Row>)
    modifies df
    ensures forall i :: 0 <= i < df.Length ==> df[i] == StripAccuracy(old(df[i]))
  {
    forall i | 0 <= i < df.Length {
      df[i] := StripAccuracy(df[i]);
    }
  }

  // ---------------------------------------------------------------------
  // The batch-size column, its distinct values, and the rows of one value
  // ---------------------------------------------------------------------

  /** No element occurs twice. */
  ghost predicate NoDuplicates<T>(s: seq<T>)
  {
    forall i, j :: 0 <= i < j < |s| ==> s[i] != s[j]
  }

  /** The batch_size column. */
  function BatchSizes(rows: seq<Row>): (keys: seq<int>)
    ensures |keys| == |rows|
    ensures forall i :: 0 <= i < |rows| ==> keys[i] == rows[i].batchSize
  {
    if rows == [] then [] else BatchSizes(rows[..|rows| - 1]) + [rows[|rows| - 1].batchSize]
  }

  /** The distinct values of `xs`, each taken when it first occurs (the column's unique()). */
  function Unique(xs: seq<int>): (u: seq<int>)
    ensures forall x :: x in u <==> x in xs
    ensures NoDuplicates(u)
    ensures |u| <= |xs|
  {
    if xs == [] then []
    else
      var u := Unique(xs[..|xs| - 1]);
      assert xs == xs[..|xs| - 1] + [xs[|xs| - 1]];
      if xs[|xs| - 1] in u then u else u + [xs[|xs| - 1]]
  }

  /** Position of the first occurrence of `x` in `xs`. */
  function FirstIndex(xs: seq<int>, x: int): (i: nat)
    requires x in xs
    ensures i < |xs| && xs[i] == x && x !in xs[..i]
  {
    if xs[0] == x then 0
    else
      var i := FirstIndex(xs[1..], x);
      assert xs[..i + 1] == [xs[0]] + xs[1..][..i];
      i + 1
  }

  /** A value first seen in a prefix is first seen at the same place in the whole sequence. */
  lemma FirstIndexOfPrefix(xs: seq<int>, n: nat, x: int)
    requires n <= |xs| && x in xs[..n]
    ensures FirstIndex(xs, x) == FirstIndex(xs[..n], x)
  {
  }

  /**
   * The distinct values come in the order of their first appearance; this is
   * the order of the dictionary's keys and so of the curves and legends.
   */
  lemma {:induction false} UniqueInFirstAppearanceOrder(xs: seq<int>)
    ensures forall i, j :: 0 <= i < j < |Unique(xs)| ==>
      FirstIndex(xs, Unique(xs)[i]) < FirstIndex(xs, Unique(xs)[j])
  {
    if xs != [] {
      var n := |xs| - 1;
      var pre := xs[..n];
      var u, v := Unique(xs), Unique(pre);
      UniqueInFirstAppearanceOrder(pre);
      assert xs == pre + [xs[n]];
      forall y | y in v
        ensures FirstIndex(xs, y) == FirstIndex(pre, y) < n
      {
        FirstIndexOfPrefix(xs, n, y);
      }
      if xs[n] !in v {
        assert xs[n] !in pre;
        assert FirstIndex(xs, xs[n]) == n;
      }
      forall i, j | 0 <= i < j < |u|
        ensures FirstIndex(xs, u[i]) < FirstIndex(xs, u[j])
      {
        assert u[i] in v;
        if j < |v| {
          assert u[i] == v[i] && u[j] == v[j];
        }
      }
    }
  }

  /** The rows whose batch size is `k`, in their original order (the boolean-mask filter). */
  function Select(rows: seq<Row>, k: int): (sel: seq<Row>)
    ensures forall r :: r in sel ==> r in rows && r.batchSize == k
    ensures forall r :: r in rows && r.batchSize == k ==> r in sel
    ensures |sel| <= |rows|
  {
    if rows == [] then []
    else
      var last := rows[|rows| - 1];
      assert rows == rows[..|rows| - 1] + [last];
      Select(rows[..|rows| - 1], k) + (if last.batchSize == k then [last] else [])
  }

  /** The row positions that carry batch size `k`: each of them and no other, in increasing order. */
  function Positions(rows: seq<Row>, k: int): (ps: seq<nat>)
    ensures forall t :: 0 <= t < |ps| ==> ps[t] < |rows|
    ensures forall s, t :: 0 <= s < t < |ps| ==> ps[s] < ps[t]
    ensures forall i :: 0 <= i < |rows| ==> (i in ps <==> rows[i].batchSize == k)
  {
    if rows == [] then []
    else
      var n := |rows| - 1;
      Positions(rows[..n], k) + (if rows[n].batchSize == k then [n] else [])
  }

  /**
   * A group keeps the original relative order and nothing else: its t-th row
   * is the row at the t-th position carrying batch size `k`.
   */
  lemma {:induction false} SelectKeepsOrder(rows: seq<Row>, k: int)
    ensures |Select(rows, k)| == |Positions(rows, k)|
    ensures forall t :: 0 <= t < |Positions(rows, k)| ==> Select(rows, k)[t] == rows[Positions(rows, k)[t]]
  {
    if rows != [] {
      var n := |rows| - 1;
      var pre := rows[..n];
      SelectKeepsOrder(pre, k);
      var sel, ps := Select(rows, k), Positions(rows, k);
      var sel', ps' := Select(pre, k), Positions(pre, k);
      assert sel == sel' + (if rows[n].batchSize == k then [rows[n]] else []);
      assert ps == ps' + (if rows[n].batchSize == k then [n] else []);
      forall t | 0 <= t < |ps|
        ensures sel[t] == rows[ps[t]]
      {
        if t < |ps'| {
          assert sel[t] == sel'[t] && ps[t] == ps'[t];
          assert pre[ps'[t]] == rows[ps'[t]];
        }
      }
    }
  }

  // ---------------------------------------------------------------------
  // The dictionary and the loop that fills it
  // ---------------------------------------------------------------------

  /** An insertion-ordered dictionary: its entries, and its keys in the order they were first inserted. */
  datatype Dict<K(!new), V> = Dict(keys: seq<K>, entries: map<K, V>)
  {
    ghost predicate Valid()
    {
      NoDuplicates(keys) && forall k :: k in entries <==> k in keys
    }

    /** d[k] = v: a new key goes to the end of the order, an existing one keeps its place. */
    function Insert(k: K, v: V): (d: Dict<K, V>)
      requires Valid()
      ensures d.Valid()
      ensures d.entries == entries[k := v]
      ensures k in entries ==> d.keys == keys
      ensures k !in entries ==> d.keys == keys + [k]
    {
      if k in entries then Dict(keys, entries[k := v]) else Dict(keys + [k], entries[k := v])
    }
  }

  /** The empty dictionary. */
  function EmptyDict<K(!new), V>(): (d: Dict<K, V>)
    ensures d.Valid() && d.keys == [] && d.entries == map[]
  {
    Dict([], map[])
  }

  /**
   * The grouping loop: for each distinct batch size, in order of first
   * appearance, store the rows with that batch size under it.
   */
  method GroupByBatchSize(df: seq<Row>) returns (d: Dict<int, seq<Row>>)
    ensures d.Valid()
    ensures d.keys == Unique(BatchSizes(df))
    ensures forall k :: k in d.entries <==> k in BatchSizes(df)
    ensures forall k :: k in d.entries ==> d.entries[k] == Select(df, k)
    ensures multiset(Regroup(df, d.keys)) == multiset(df)
    ensures |d.keys| <= |df| && (df == [] ==> d.entries == map[])
  {
    d := EmptyDict();
    var batchSizes := Unique(BatchSizes(df));
    for i := 0 to |batchSizes|
      invariant d.Valid()
      invariant d.keys == batchSizes[..i]
      invariant forall k :: k in d.entries ==> d.entries[k] == Select(df, k)
    {
      var batchSize := batchSizes[i];
      assert batchSize !in batchSizes[..i];
      var data := Select(df, batchSize);
      d := d.Insert(batchSize, data);
      assert batchSizes[..i + 1] == batchSizes[..i] + [batchSize];
    }
    assert batchSizes[..|batchSizes|] == batchSizes;
    GroupsPartitionRows(df);
  }

  /** The whole preparation: strip the accuracy columns in place, then group the rows by batch size. */
  method ReadAndProcessCsv(df: array<Row>) returns (d: Dict<int, seq<Row>>)
    modifies df
    ensures forall i :: 0 <= i < df.Length ==> df[i] == StripAccuracy(old(df[i]))
    ensures d.Valid() && d.keys == Unique(BatchSizes(df[..]))
    ensures forall k :: k in d.entries ==> d.entries[k] == Select(df[..], k)
  {
    StripAccuracyColumns(df);
    d := GroupByBatchSize(df[..]);
  }

  // ---------------------------------------------------------------------
  // The groups partition the rows
  // ---------------------------------------------------------------------

  /** The groups of `keys`, one after the other. */
  function Regroup(rows: seq<Row>, keys: seq<int>): seq<Row>
  {
    if keys == [] then [] else Select(rows, keys[0]) + Regroup(rows, keys[1..])
  }

  lemma {:induction false} RegroupAppend(rows: seq<Row>, keys: seq<int>, k: int)
    ensures Regroup(rows, keys + [k]) == Regroup(rows, keys) + Select(rows, k)
  {
    if keys != [] {
      assert (keys + [k])[1..] == keys[1..] + [k];
      RegroupAppend(rows, keys[1..], k);
    }
  }

  /** Appending one row adds it to the regrouping exactly when its batch size is among the keys. */
  lemma {:induction false} RegroupOfSnoc(pre: seq<Row>, r: Row, keys: seq<int>)
    requires NoDuplicates(keys)
    ensures multiset(Regroup(pre + [r], keys)) ==
      multiset(Regroup(pre, keys)) + (if r.batchSize in keys then multiset{r} else multiset{})
  {
    if keys != [] {
      var rows := pre + [r];
      assert rows[..|rows| - 1] == pre;
      RegroupOfSnoc(pre, r, keys[1..]);
      assert r.batchSize in keys <==> r.batchSize == keys[0] || r.batchSize in keys[1..];
      assert r.batchSize == keys[0] ==> r.batchSize !in keys[1..];
    }
  }

  /** A batch size that no row carries has an empty group. */
  lemma SelectOfAbsentKey(rows: seq<Row>, k: int)
    requires k !in BatchSizes(rows)
    ensures Select(rows, k) == []
  {
  }

  /** A row whose batch size is new adds a group holding just that row. */
  lemma RegroupNewKey(pre: seq<Row>, r: Row, keys: seq<int>)
    requires r.batchSize !in BatchSizes(pre)
    ensures multiset(Regroup(pre + [r], keys + [r.batchSize])) ==
      multiset(Regroup(pre + [r], keys)) + multiset{r}
  {
    var rows := pre + [r];
    RegroupAppend(rows, keys, r.batchSize);
    SelectOfAbsentKey(pre, r.batchSize);
    assert rows[..|rows| - 1] == pre;
    assert Select(rows, r.batchSize) == [r];
  }

  /**
   * Every row lands in exactly one group: the groups, taken in key order and
   * put one after the other, are a permutation of the rows, so in particular
   * the group sizes add up to the number of rows.
   */
  lemma {:induction false} GroupsPartitionRows(rows: seq<Row>)
    ensures multiset(Regroup(rows, Unique(BatchSizes(rows)))) == multiset(rows)
    ensures |Regroup(rows, Unique(BatchSizes(rows)))| == |rows|
  {
    var keys := Unique(BatchSizes(rows));
    if rows != [] {
      var n := |rows| - 1;
      var pre, r := rows[..n], rows[n];
      assert rows == pre + [r];
      assert BatchSizes(rows)[..n] == BatchSizes(pre);
      var u := Unique(BatchSizes(pre));
      GroupsPartitionRows(pre);
      RegroupOfSnoc(pre, r, u);
      if r.batchSize in u {
        assert keys == u;
      } else {
        assert keys == u + [r.batchSize];
        RegroupNewKey(pre, r, u);
      }
    }
    assert |multiset(Regroup(rows, keys))| == |multiset(rows)|;
  }
}
