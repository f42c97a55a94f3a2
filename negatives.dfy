/**
 * Negative sampling. For an event with positive item p and history set H,
 * the eligible pool is the item universe minus H minus {p}; a draw takes
 * min(k, |pool|) distinct items from it. The random generator is not
 * modelled: a draw is any choice of distinct pool items.
 */
module Negatives {
  import opened Base

  /** The largest item code. */
  function MaxOf(codes: seq<int>): (m: int)
    requires codes != []
    ensures m in codes
    ensures forall i :: 0 <= i < |codes| ==> codes[i] <= m
    decreases |codes|
  {
    if |codes| == 1 then codes[0]
    else
      var rest := MaxOf(codes[1..]);
      if codes[0] >= rest then codes[0] else rest
  }

  /**
   * all_item_ids: every code from 1 up to the largest item code; nothing for
   * an empty table, whose maximum is undefined.
   */
  function Universe(itemCodes: seq<int>): (u: Option<set<int>>)
    ensures u.None? <==> itemCodes == []
    ensures u.Some? ==> 0 !in u.value
    ensures u.Some? ==> forall i :: 0 <= i < |itemCodes| && itemCodes[i] >= 1 ==> itemCodes[i] in u.value
    ensures u.Some? ==> forall x :: x in u.value <==> 1 <= x && exists i :: 0 <= i < |itemCodes| && x <= itemCodes[i]
  {
    if itemCodes == [] then None
    else
      var m := MaxOf(itemCodes);
      var u := CodesUpTo(m);
      Some(u)
  }

  /** The codes 1..m. */
  function CodesUpTo(m: int): (u: set<int>)
    ensures forall x :: x in u <==> 1 <= x <= m
    ensures |u| == if m > 0 then m else 0
    decreases if m > 0 then m else 0
  {
    if m <= 0 then {}
    else
      var below := CodesUpTo(m - 1);
      assert m !in below;
      below + {m}
  }

  /** The items an event may be given as negatives. */
  function Eligible(universe: set<int>, positive: int, history: set<int>): set<int> {
    universe - history - {positive}
  }

  /**
   * A draw of k distinct items from a pool (random.sample on a list of the
   * pool, np.random.choice without replacement); with k = |pool| it is the
   * whole pool in some order, as list() of a set gives it.
   */
  method DrawDistinct(pool: set<int>, k: nat) returns (picked: seq<int>)
    requires k <= |pool|
    ensures |picked| == k && Distinct(picked)
    ensures forall j :: 0 <= j < k ==> picked[j] in pool
  {
    picked := [];
    var remaining := pool;
    while |picked| < k
      invariant |picked| <= k && Distinct(picked)
      invariant remaining <= pool
      invariant forall j :: 0 <= j < |picked| ==> picked[j] in pool && picked[j] !in remaining
      invariant |remaining| == |pool| - |picked|
      decreases k - |picked|
    {
      NonEmptyHasMember(remaining);
      var x :| x in remaining;
      picked := picked + [x];
      remaining := remaining - {x};
    }
  }

  /** A set of positive size has a member to draw. */
  lemma NonEmptyHasMember(s: set<int>)
    requires |s| > 0
    ensures exists x :: x in s
  {
    if forall x :: x !in s {
      NoMemberIsEmpty(s);
      assert false;
    }
  }

  lemma NoMemberIsEmpty(s: set<int>)
    requires forall x :: x !in s
    ensures s == {}
  {
    assert forall x :: x in s <==> x in {};
  }

  /** Distinct members of a pool that are as many as the pool are the whole pool. */
  lemma WholePool(pool: set<int>, s: seq<int>)
    requires Distinct(s) && |s| == |pool|
    requires forall j :: 0 <= j < |s| ==> s[j] in pool
    ensures Elements(s) == pool
  {
    DistinctCard(s);
    var e := Elements(s);
    assert e <= pool;
    assert |pool - e| == |pool| - |e|;
  }

  /**
   * generate_negative_samples_cached without its cache: distinct items that
   * are in the universe, not in the history and not the positive; exactly
   * num_samples of them when the pool is large enough, and otherwise the
   * whole pool.
   */
  method SampleCached(allItems: set<int>, positive: int, history: seq<int>, numSamples: nat)
    returns (negs: seq<int>)
    ensures Distinct(negs)
    ensures forall j :: 0 <= j < |negs| ==>
      negs[j] in allItems && negs[j] !in history && negs[j] != positive
    ensures |negs| == Min(numSamples, |Eligible(allItems, positive, Elements(history))|)
    ensures |negs| < numSamples ==> Elements(negs) == Eligible(allItems, positive, Elements(history))
  {
    var pool := allItems - Elements(history) - {positive};
    if |pool| >= numSamples {
      negs := DrawDistinct(pool, numSamples);
    } else {
      negs := DrawDistinct(pool, |pool|);
      WholePool(pool, negs);
    }
  }

  /** The entries of ids that are not excluded, in their order (ids[~isin(ids, excluded)]). */
  function Filter(ids: seq<int>, excluded: set<int>): (r: seq<int>)
    ensures forall j :: 0 <= j < |r| ==> r[j] in ids && r[j] !in excluded
    ensures forall j :: 0 <= j < |ids| && ids[j] !in excluded ==> ids[j] in r
    ensures Distinct(ids) ==> Distinct(r)
    decreases |ids|
  {
    if ids == [] then []
    else
      var rest := Filter(ids[1..], excluded);
      if ids[0] in excluded then rest
      else
        assert Distinct(ids) ==> ids[0] !in ids[1..];
        [ids[0]] + rest
  }

  /** What one row of the vectorised sampler must hold, for its eligible pool. */
  ghost predicate SampledRow(row: seq<int>, eligible: set<int>, numSamples: nat) {
    var n := Min(numSamples, |eligible|);
    && |row| == numSamples
    && Distinct(row[..n])
    && (forall j :: 0 <= j < n ==> row[j] in eligible)
    && (forall j :: n <= j < numSamples ==> row[j] == 0)
    && (n < numSamples ==> Elements(row[..n]) == eligible)
  }

  /**
   * One row of the vectorised sampler: the pool is the universe, in the
   * order ids lists it, without the history and the positive; a pool at
   * least num_samples long gives a draw of num_samples distinct items, a
   * shorter one is taken whole.
   */
  method SampleRow(ids: seq<int>, allItems: set<int>, positive: int, history: set<int>, numSamples: nat)
    returns (sampled: seq<int>)
    requires Distinct(ids) && Elements(ids) == allItems
    ensures var eligible := Eligible(allItems, positive, history);
      && |sampled| == Min(numSamples, |eligible|)
      && Distinct(sampled)
      && (forall j :: 0 <= j < |sampled| ==> sampled[j] in eligible)
      && (|sampled| < numSamples ==> Elements(sampled) == eligible)
  {
    var pool := Filter(ids, history + {positive});
    assert Elements(pool) == Eligible(allItems, positive, history);
    DistinctCard(pool);
    if |pool| >= numSamples {
      sampled := DrawDistinct(Elements(pool), numSamples);
    } else {
      sampled := pool;
    }
  }

  /** A row holding a valid draw followed by zeros is a sampled row. */
  lemma FilledRow(row: seq<int>, sampled: seq<int>, eligible: set<int>, numSamples: nat)
    requires |row| == numSamples && |sampled| == Min(numSamples, |eligible|)
    requires Distinct(sampled) && (forall j :: 0 <= j < |sampled| ==> sampled[j] in eligible)
    requires |sampled| < numSamples ==> Elements(sampled) == eligible
    requires forall c :: 0 <= c < numSamples ==> row[c] == if c < |sampled| then sampled[c] else 0
    ensures SampledRow(row, eligible, numSamples)
  {
    assert row[..|sampled|] == sampled;
  }

  /**
   * generate_negative_samples_vectorized: a zero matrix with one row per
   * event, whose row idx is overwritten from the left with the draw for
   * that event. Every row has exactly num_samples entries: the draw, then
   * zeros.
   */
  method SampleVectorized(positives: seq<int>, histories: seq<set<int>>, allItems: set<int>, numSamples: nat)
    returns (rows: seq<seq<int>>)
    requires |positives| == |histories|
    ensures |rows| == |positives|
    ensures forall r :: 0 <= r < |rows| ==>
      SampledRow(rows[r], Eligible(allItems, positives[r], histories[r]), numSamples)
  {
    var ids := DrawDistinct(allItems, |allItems|);
    WholePool(allItems, ids);
    var negSamples := new int[|positives|, numSamples]((_, _) => 0);
    ZeroRows(negSamples);
    for idx := 0 to |positives|
      invariant forall r :: 0 <= r < idx ==>
        SampledRow(RowOf(negSamples, r), Eligible(allItems, positives[r], histories[r]), numSamples)
      invariant forall r :: idx <= r < |positives| ==> RowOf(negSamples, r) == Repeat(0, numSamples)
    {
      SampleInto(negSamples, idx, ids, allItems, positives[idx], histories[idx]);
    }
    rows := Rows(negSamples);
  }

  /** neg_samples.tolist(): the matrix as a list of its rows. */
  function Rows(m: array2<int>): (rows: seq<seq<int>>)
    reads m
    ensures |rows| == m.Length0
    ensures forall r :: 0 <= r < m.Length0 ==> rows[r] == RowOf(m, r)
  {
    seq(m.Length0, r requires 0 <= r < m.Length0 reads m => RowOf(m, r))
  }

  /** One iteration of the vectorised sampler: row idx, all zeros, receives its draw. */
  method SampleInto(m: array2<int>, idx: nat, ids: seq<int>, allItems: set<int>, positive: int, history: set<int>)
    requires idx < m.Length0 && RowOf(m, idx) == Repeat(0, m.Length1)
    requires Distinct(ids) && Elements(ids) == allItems
    modifies m
    ensures forall r :: 0 <= r < m.Length0 && r != idx ==> RowOf(m, r) == old(RowOf(m, r))
    ensures SampledRow(RowOf(m, idx), Eligible(allItems, positive, history), m.Length1)
  {
    ghost var zeros := RowOf(m, idx);
    var sampled := SampleRow(ids, allItems, positive, history, m.Length1);
    FillRow(m, idx, sampled);
    assert RowOf(m, idx) == sampled + zeros[|sampled|..];
    FilledRow(RowOf(m, idx), sampled, Eligible(allItems, positive, history), m.Length1);
  }

  /** A freshly zeroed matrix has only zero rows. */
  lemma ZeroRows(m: array2<int>)
    requires forall r, c :: 0 <= r < m.Length0 && 0 <= c < m.Length1 ==> m[r, c] == 0
    ensures forall r :: 0 <= r < m.Length0 ==> RowOf(m, r) == Repeat(0, m.Length1)
  {
    forall r | 0 <= r < m.Length0 ensures RowOf(m, r) == Repeat(0, m.Length1) {
      assert forall c :: 0 <= c < m.Length1 ==> RowOf(m, r)[c] == 0;
    }
  }

  /** Row r of a matrix as a sequence. */
  function RowOf(m: array2<int>, r: nat): (row: seq<int>)
    requires r < m.Length0
    reads m
    ensures |row| == m.Length1
    ensures forall c :: 0 <= c < m.Length1 ==> row[c] == m[r, c]
  {
    seq(m.Length1, c requires 0 <= c < m.Length1 reads m => m[r, c])
  }

  /** neg_samples[idx, :len(sampled)] = sampled: only that slice of that row changes. */
  method FillRow(m: array2<int>, idx: nat, sampled: seq<int>)
    requires idx < m.Length0 && |sampled| <= m.Length1
    modifies m
    ensures forall r :: 0 <= r < m.Length0 && r != idx ==> RowOf(m, r) == old(RowOf(m, r))
    ensures RowOf(m, idx) == sampled + old(RowOf(m, idx))[|sampled|..]
  {
    ghost var before := RowOf(m, idx);
    for j := 0 to |sampled|
      invariant forall r, c :: 0 <= r < m.Length0 && 0 <= c < m.Length1 ==>
        m[r, c] == if r == idx && c < j then sampled[c] else old(m[r, c])
    {
      m[idx, j] := sampled[j];
    }
    forall r | 0 <= r < m.Length0 && r != idx
      ensures RowOf(m, r) == old(RowOf(m, r))
    {
      assert forall c :: 0 <= c < m.Length1 ==> RowOf(m, r)[c] == old(RowOf(m, r))[c];
    }
    assert forall c :: 0 <= c < m.Length1 ==> RowOf(m, idx)[c] == (sampled + before[|sampled|..])[c];
  }
}
