/**
 * The per-user train/valid/test split. Each user's rows, in row order, are
 * cut with iloc[:-2], iloc[-2:-1] and iloc[-1:]; the three tables are the
 * users' pieces concatenated in group order. The test table's candidate
 * lists get the positive item appended after the sampled negatives.
 */
module Split {
  import opened Base
  import opened Grouping
  import Negatives

  /** A Python slice bound for a sequence of length n: negative counts from the end; clamped to 0..n. */
  function SliceBound(b: int, n: nat): (i: nat)
    ensures i <= n
    ensures 0 <= b <= n ==> i == b
    ensures b < 0 && 0 <= n + b ==> i == n + b
    ensures b > n ==> i == n
    ensures b < 0 && n + b < 0 ==> i == 0
  {
    if b < 0 then (if b + n < 0 then 0 else b + n)
    else if b > n then n
    else b
  }

  /** s[start:stop] as Python and iloc slice it (step 1). */
  function PySlice<T>(s: seq<T>, start: int, stop: int): seq<T> {
    var a, b := SliceBound(start, |s|), SliceBound(stop, |s|);
    if a <= b then s[a..b] else []
  }

  /** iloc[:-2]: everything but the last two rows; nothing for one or two rows. */
  function Train<T>(rows: seq<T>): (r: seq<T>)
    ensures |rows| >= 2 ==> r == rows[..|rows| - 2]
    ensures |rows| < 2 ==> r == []
  {
    PySlice(rows, 0, -2)
  }

  /** iloc[-2:-1]: the second-to-last row; nothing for fewer than two rows. */
  function Valid<T>(rows: seq<T>): (r: seq<T>)
    ensures |rows| >= 2 ==> r == [rows[|rows| - 2]]
    ensures |rows| < 2 ==> r == []
  {
    PySlice(rows, -2, -1)
  }

  /** iloc[-1:]: the last row; nothing for no rows. */
  function Test<T>(rows: seq<T>): (r: seq<T>)
    ensures rows != [] ==> r == [rows[|rows| - 1]]
    ensures rows == [] ==> r == []
  {
    PySlice(rows, -1, |rows|)
  }

  /**
   * For a user with n >= 1 rows, train ++ valid ++ test is the user's rows
   * in their original order; test has one row, valid min(n-1, 1) and train
   * max(n-2, 0). Users with one or two rows give empty train (and valid).
   */
  lemma SplitPartition<T>(rows: seq<T>)
    requires |rows| >= 1
    ensures Train(rows) + Valid(rows) + Test(rows) == rows
    ensures Test(rows) == [rows[|rows| - 1]]
    ensures |Valid(rows)| == Min(|rows| - 1, 1)
    ensures |Train(rows)| == Max(|rows| - 2, 0)
  {
    var n := |rows|;
    if n == 1 {
      assert Train(rows) == [] && Valid(rows) == [];
    } else {
      assert Train(rows) == rows[..n - 2];
      assert Valid(rows) == rows[n - 2..n - 1];
      assert rows == rows[..n - 2] + rows[n - 2..n - 1] + rows[n - 1..];
    }
  }

  /** The three split tables. */
  datatype Tables<T> = Tables(train: seq<T>, valid: seq<T>, test: seq<T>)

  /** The split of a whole table: each user's pieces, concatenated in group order. */
  function SplitTable<K(==), T>(keys: seq<K>, rows: seq<T>, users: seq<K>): (t: Tables<T>)
    requires |keys| == |rows|
    ensures |t.train| + |t.valid| + |t.test| == |ConcatGroups(keys, rows, users)|
    ensures |t.test| <= |users|
    decreases |users|
  {
    if users == [] then Tables([], [], [])
    else
      var prev := SplitTable(keys, rows, users[..|users| - 1]);
      var g := Group(keys, rows, users[|users| - 1]);
      assert |Train(g)| + |Valid(g)| + |Test(g)| == |g|;
      Tables(prev.train + Train(g), prev.valid + Valid(g), prev.test + Test(g))
  }

  /** Per group order, the three tables together hold exactly the groups' rows. */
  lemma {:induction false} SplitTableOfGroups<K, T>(keys: seq<K>, rows: seq<T>, users: seq<K>)
    requires |keys| == |rows|
    requires forall i :: 0 <= i < |users| ==> users[i] in keys
    ensures var t := SplitTable(keys, rows, users);
      && multiset(t.train) + multiset(t.valid) + multiset(t.test) == multiset(ConcatGroups(keys, rows, users))
      && |t.test| == |users|
    decreases |users|
  {
    if users != [] {
      var u := users[|users| - 1];
      SplitTableOfGroups(keys, rows, users[..|users| - 1]);
      var g := Group(keys, rows, u);
      GroupOfListedUser(keys, rows, u);
      SplitPartition(g);
      assert multiset(g) == multiset(Train(g)) + multiset(Valid(g)) + multiset(Test(g)) by {
        assert g == Train(g) + Valid(g) + Test(g);
      }
    }
  }

  /** A user that occurs in the table has a non-empty group. */
  lemma GroupOfListedUser<K, T>(keys: seq<K>, rows: seq<T>, u: K)
    requires |keys| == |rows| && u in keys
    ensures |Group(keys, rows, u)| >= 1
  {
    var r :| 0 <= r < |keys| && keys[r] == u;
    RowInGroup(keys, rows, r);
  }

  /**
   * Split completeness for a whole table: no row is lost or duplicated
   * across train, valid and test, and the test table has one row per user.
   */
  lemma SplitTableComplete<K, T>(keys: seq<K>, rows: seq<T>, users: seq<K>)
    requires |keys| == |rows| && IsGroupOrder(keys, users)
    ensures var t := SplitTable(keys, rows, users);
      && multiset(t.train) + multiset(t.valid) + multiset(t.test) == multiset(rows)
      && |t.test| == |users|
  {
    SplitTableOfGroups(keys, rows, users);
    ConcatGroupsPermutes(keys, rows, users);
  }

  /** test_df['neg_items'] + [[item]]: the positive item appended to each candidate list. */
  function TestCandidates(negItems: seq<seq<int>>, items: seq<int>): (c: seq<seq<int>>)
    requires |negItems| == |items|
    ensures |c| == |items|
    ensures forall i :: 0 <= i < |items| ==>
      |c[i]| == |negItems[i]| + 1 && c[i][|negItems[i]|] == items[i] && c[i][..|negItems[i]|] == negItems[i]
  {
    seq(|items|, i requires 0 <= i < |items| => negItems[i] + [items[i]])
  }

  /**
   * Each test candidate list built from the vectorised sampler has
   * test_num_samples + 1 entries and ends with the positive item, which
   * occurs nowhere else in it: the sampled negatives exclude it and the
   * padding is 0, which no encoded item takes.
   */
  lemma TestCandidatesRankPositiveOnce(negItems: seq<seq<int>>, items: seq<int>, histories: seq<set<int>>,
                                       allItems: set<int>, numSamples: nat, i: nat)
    requires |negItems| == |items| == |histories| && i < |items|
    requires items[i] >= 1
    requires Negatives.SampledRow(negItems[i], Negatives.Eligible(allItems, items[i], histories[i]), numSamples)
    ensures var c := TestCandidates(negItems, items)[i];
      && |c| == numSamples + 1
      && c[numSamples] == items[i]
      && forall j :: 0 <= j < numSamples ==> c[j] != items[i]
  {
    var c := TestCandidates(negItems, items)[i];
    var n := Min(numSamples, |Negatives.Eligible(allItems, items[i], histories[i])|);
    forall j | 0 <= j < numSamples ensures c[j] != items[i] {
      assert c[j] == negItems[i][j];
      if j < n {
        assert negItems[i][j] in Negatives.Eligible(allItems, items[i], histories[i]);
      }
    }
  }
}
