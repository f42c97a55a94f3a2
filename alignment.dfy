/**
 * Attaching the range counts to the table. The per-user counts come back
 * in group order (all rows of the first user, then the next, ...); the
 * table keeps its original row order. Pairing the two by position after
 * resetting both indexes is right only when the table is already ordered
 * by user. RangeColumnAsWritten models that pairing; RangeColumn gives each
 * row the counts computed for it in its own user's group.
 */
module Alignment {
  import opened Grouping
  import opened Ranges

  /** ranges_df: the range counts of each user's group, groups in group order. */
  function GroupedRanges<K(==)>(keys: seq<K>, ts: seq<int>, users: seq<K>, k: int): (r: seq<int>)
    requires |keys| == |ts|
    ensures |r| == |ConcatGroups(keys, ts, users)|
    decreases |users|
  {
    if users == [] then []
    else GroupedRanges(keys, ts, users[..|users| - 1], k) + RangesOf(Group(keys, ts, users[|users| - 1]), k)
  }

  /** The range column as the concat at preprocess_df pairs it: row r gets entry r of ranges_df. */
  function RangeColumnAsWritten<K(==)>(keys: seq<K>, ts: seq<int>, users: seq<K>, k: int): (col: seq<int>)
    requires |keys| == |ts| && IsGroupOrder(keys, users)
    ensures |col| == |keys|
  {
    ConcatGroupsPermutes(keys, ts, users);
    assert |ConcatGroups(keys, ts, users)| == |multiset(ts)|;
    GroupedRanges(keys, ts, users, k)
  }

  /**
   * The range column with each row's own count: row r gets the count of
   * its user's rows whose timestamp lies in [ts[r] - k, ts[r]], minus one.
   */
  function RangeColumn<K(==)>(keys: seq<K>, ts: seq<int>, k: int): (col: seq<int>)
    requires |keys| == |ts|
    ensures |col| == |keys|
    ensures forall r :: 0 <= r < |keys| ==> col[r] == CountUserWithin(keys, ts, keys[r], ts[r] - k, ts[r]) - 1
  {
    seq(|keys|, r requires 0 <= r < |keys| => OwnRangeCount(keys, ts, k, r))
  }

  /**
   * Row r's count, computed where calculate_ranges computes it: at r's
   * position in its own user's group. It equals the count of the user's
   * rows of the whole table in the interval.
   */
  function OwnRangeCount<K(==)>(keys: seq<K>, ts: seq<int>, k: int, r: nat): (c: int)
    requires |keys| == |ts| && r < |keys|
    ensures c == CountUserWithin(keys, ts, keys[r], ts[r] - k, ts[r]) - 1
  {
    RowInGroup(keys, ts, r);
    GroupCount(keys, ts, keys[r], ts[r] - k, ts[r]);
    RangeCount(Group(keys, ts, keys[r]), PosInGroup(keys, r), k)
  }

  /** How many rows of user u have a timestamp in [lo, hi], anywhere in the table. */
  function CountUserWithin<K(==)>(keys: seq<K>, ts: seq<int>, u: K, lo: int, hi: int): nat
    requires |keys| == |ts|
    decreases |keys|
  {
    if keys == [] then 0
    else
      var n := |keys| - 1;
      CountUserWithin(keys[..n], ts[..n], u, lo, hi) + (if keys[n] == u && lo <= ts[n] <= hi then 1 else 0)
  }

  /** Counting inside a user's group is counting that user's rows of the table. */
  lemma {:induction false} GroupCount<K>(keys: seq<K>, ts: seq<int>, u: K, lo: int, hi: int)
    requires |keys| == |ts|
    ensures CountWithin(Group(keys, ts, u), lo, hi) == CountUserWithin(keys, ts, u, lo, hi)
    decreases |keys|
  {
    if keys != [] {
      var n := |keys| - 1;
      GroupCount(keys[..n], ts[..n], u, lo, hi);
      var g := Group(keys[..n], ts[..n], u);
      CountWithinAppend(g, if keys[n] == u then [ts[n]] else [], lo, hi);
      assert CountWithin([ts[n]], lo, hi) == (if lo <= ts[n] <= hi then 1 else 0) by {
        assert [ts[n]][..0] == [];
      }
    }
  }

  /**
   * The intended column counts the row itself for k >= 0, so no count is
   * negative, and a shorter lookback never gives a larger count.
   */
  lemma RangeColumnCountsOwnUser<K>(keys: seq<K>, ts: seq<int>, k: int, k': int, r: nat)
    requires |keys| == |ts| && r < |keys|
    ensures k >= 0 ==> RangeColumn(keys, ts, k)[r] >= 0
    ensures k' <= k ==> RangeColumn(keys, ts, k')[r] <= RangeColumn(keys, ts, k)[r]
  {
    var u, t := keys[r], ts[r];
    var col, col' := RangeColumn(keys, ts, k), RangeColumn(keys, ts, k');
    assert col[r] == CountUserWithin(keys, ts, u, t - k, t) - 1;
    assert col'[r] == CountUserWithin(keys, ts, u, t - k', t) - 1;
    if k >= 0 {
      UserSelfCounted(keys, ts, r, ts[r] - k, ts[r]);
    }
    if k' <= k {
      UserWiderCountsMore(keys, ts, keys[r], ts[r] - k, ts[r] - k', ts[r]);
    }
  }

  /** A row inside the interval is counted among its user's rows. */
  lemma UserSelfCounted<K>(keys: seq<K>, ts: seq<int>, r: nat, lo: int, hi: int)
    requires |keys| == |ts| && r < |keys| && lo <= ts[r] <= hi
    ensures CountUserWithin(keys, ts, keys[r], lo, hi) >= 1
  {
    RowInGroup(keys, ts, r);
    GroupCount(keys, ts, keys[r], lo, hi);
    SelfCounted(Group(keys, ts, keys[r]), PosInGroup(keys, r), lo, hi);
  }

  /** Lowering the lower bound never lowers a user's count. */
  lemma UserWiderCountsMore<K>(keys: seq<K>, ts: seq<int>, u: K, lo: int, lo': int, hi: int)
    requires |keys| == |ts| && lo <= lo'
    ensures CountUserWithin(keys, ts, u, lo', hi) <= CountUserWithin(keys, ts, u, lo, hi)
  {
    GroupCount(keys, ts, u, lo, hi);
    GroupCount(keys, ts, u, lo', hi);
    WiderWindowCountsMore(Group(keys, ts, u), lo', lo, hi);
  }


  /**
   * The positional pairing mislabels rows as soon as the table is not
   * ordered by user: user 2's single event is listed first, user 1 has two
   * simultaneous events, and the first row receives user 1's count 1
   * instead of its own 0.
   */
  lemma MisalignedWhenNotGroupedByUser()
    ensures IsGroupOrder([2, 1, 1], [1, 2])
    ensures RangeColumnAsWritten([2, 1, 1], [0, 0, 0], [1, 2], 0)[0] == 1
    ensures RangeColumn([2, 1, 1], [0, 0, 0], 0)[0] == 0
  {
    ExampleGroupOrder();
    ExampleAsWritten();
    ExampleOwnCount();
  }

  lemma ExampleGroupOrder()
    ensures IsGroupOrder([2, 1, 1], [1, 2])
  {
    var keys := [2, 1, 1];
    assert keys[0] == 2 && keys[1] == 1 && keys[2] == 1;
  }

  /** Positional pairing hands row 0 the first entry of user 1's counts. */
  lemma ExampleAsWritten()
    requires IsGroupOrder([2, 1, 1], [1, 2])
    ensures RangeColumnAsWritten([2, 1, 1], [0, 0, 0], [1, 2], 0)[0] == 1
  {
    var keys, ts := [2, 1, 1], [0, 0, 0];
    ExampleGroups();
    ExampleCounts();
    assert [1, 2][..1] == [1] && [1][..0] == [];
    var first := GroupedRanges(keys, ts, [1], 0);
    assert first == RangesOf([0, 0], 0);
    assert GroupedRanges(keys, ts, [1, 2], 0) == first + RangesOf([0], 0);
    assert first[0] == RangeCount([0, 0], 0, 0) == 1;
  }

  /** Row 0's own count: user 2 has no other event. */
  lemma ExampleOwnCount()
    ensures RangeColumn([2, 1, 1], [0, 0, 0], 0)[0] == 0
  {
    var keys, ts := [2, 1, 1], [0, 0, 0];
    ExampleGroups();
    ExampleCounts();
    assert keys[..0] == [];
    assert PosInGroup(keys, 0) == 0;
    assert RangeColumn(keys, ts, 0)[0] == RangeCount([0], 0, 0) == 0;
  }

  /** The groups of the example table: user 1 has two events at 0, user 2 one. */
  lemma ExampleGroups()
    ensures Group([2, 1, 1], [0, 0, 0], 1) == [0, 0]
    ensures Group([2, 1, 1], [0, 0, 0], 2) == [0]
  {
    assert [2, 1, 1][..2] == [2, 1] && [0, 0, 0][..2] == [0, 0];
    assert [2, 1][..1] == [2] && [0, 0][..1] == [0];
    assert [2][..0] == [] && [0][..0] == [];
    assert Group([2], [0], 1) == [] && Group([2], [0], 2) == [0];
    assert Group([2, 1], [0, 0], 1) == [0] && Group([2, 1], [0, 0], 2) == [0];
  }

  /** Interval counts of the example groups for lookback 0. */
  lemma ExampleCounts()
    ensures CountWithin([0, 0], 0, 0) == 2
    ensures CountWithin([0], 0, 0) == 1
  {
    assert [0, 0][..1] == [0] && [0][..0] == [];
  }
}
