/**
 * The temporal range counter: for each event of a user at time t (integer
 * milliseconds), how many of that user's events have a timestamp in the
 * closed interval [t - k, t], not counting the event itself. It is computed
 * for a mid lookback k_m and a short lookback k_s.
 */
module Ranges {
  import opened Base

  /** How many timestamps lie in the closed interval [lo, hi]. */
  function CountWithin(ts: seq<int>, lo: int, hi: int): nat
    decreases |ts|
  {
    if ts == [] then 0
    else CountWithin(ts[..|ts| - 1], lo, hi) + (if lo <= ts[|ts| - 1] <= hi then 1 else 0)
  }

  /** The range count of event i for lookback k: events in [t - k, t], minus one. */
  function RangeCount(ts: seq<int>, i: nat, k: int): (c: int)
    requires i < |ts|
    ensures c < |ts|
    ensures k >= 0 ==> c >= 0
  {
    var lo, hi := ts[i] - k, ts[i];
    CountWithinAtMostLength(ts, lo, hi);
    if k >= 0 then
      SelfCounted(ts, i, lo, hi);
      CountWithin(ts, lo, hi) - 1
    else
      CountWithin(ts, lo, hi) - 1
  }

  /**
   * The range counts of every event of one user's sequence: each counts at
   * most the other events of the sequence, and none is negative for a
   * non-negative lookback.
   */
  function RangesOf(ts: seq<int>, k: int): (r: seq<int>)
    ensures |r| == |ts|
    ensures forall i :: 0 <= i < |ts| ==> r[i] < |ts|
    ensures k >= 0 ==> forall i :: 0 <= i < |ts| ==> r[i] >= 0
  {
    seq(|ts|, i requires 0 <= i < |ts| => RangeCount(ts, i, k))
  }

  /**
   * The number of timestamps in the closed interval [lo, hi]: one pass over the
   * group. On a group in non-decreasing time order this is the size of the
   * label slice [lo, hi] of the time index.
   */
  method CountInWindow(ts: seq<int>, lo: int, hi: int) returns (c: nat)
    ensures c == CountWithin(ts, lo, hi)
  {
    c := 0;
    for j := 0 to |ts|
      invariant c == CountWithin(ts[..j], lo, hi)
    {
      assert ts[..j + 1][..j] == ts[..j];
      if lo <= ts[j] <= hi {
        c := c + 1;
      }
    }
    assert ts[..|ts|] == ts;
  }

  /**
   * calculate_ranges on one user's timestamps: mid_len and short_len of every
   * event. Both are non-negative for non-negative lookbacks, because an event
   * always counts itself, and short_len never exceeds mid_len when the short
   * lookback is no longer than the mid one.
   */
  method CalculateRanges(timestamps: seq<int>, kM: int, kS: int) returns (midLen: seq<int>, shortLen: seq<int>)
    ensures |midLen| == |timestamps| && |shortLen| == |timestamps|
    ensures forall i :: 0 <= i < |timestamps| ==>
      midLen[i] == RangeCount(timestamps, i, kM) && shortLen[i] == RangeCount(timestamps, i, kS)
    ensures kM >= 0 ==> forall i :: 0 <= i < |timestamps| ==> midLen[i] >= 0
    ensures kS >= 0 ==> forall i :: 0 <= i < |timestamps| ==> shortLen[i] >= 0
    ensures kS <= kM ==> forall i :: 0 <= i < |timestamps| ==> shortLen[i] <= midLen[i]
  {
    midLen, shortLen := [], [];
    for i := 0 to |timestamps|
      invariant |midLen| == i && |shortLen| == i
      invariant forall j :: 0 <= j < i ==>
        midLen[j] == RangeCount(timestamps, j, kM) && shortLen[j] == RangeCount(timestamps, j, kS)
      invariant kM >= 0 ==> forall j :: 0 <= j < i ==> midLen[j] >= 0
      invariant kS >= 0 ==> forall j :: 0 <= j < i ==> shortLen[j] >= 0
      invariant kS <= kM ==> forall j :: 0 <= j < i ==> shortLen[j] <= midLen[j]
    {
      var t := timestamps[i];
      var mid: int := CountInWindow(timestamps, t - kM, t);
      var short: int := CountInWindow(timestamps, t - kS, t);
      if kM >= 0 {
        SelfCounted(timestamps, i, t - kM, t);
      }
      if kS >= 0 {
        SelfCounted(timestamps, i, t - kS, t);
      }
      if kS <= kM {
        WiderWindowCountsMore(timestamps, t - kS, t - kM, t);
      }
      midLen := midLen + [mid - 1];
      shortLen := shortLen + [short - 1];
    }
  }

  /** An event inside the interval is counted, so the count is at least one. */
  lemma {:induction false} SelfCounted(ts: seq<int>, i: nat, lo: int, hi: int)
    requires i < |ts| && lo <= ts[i] <= hi
    ensures CountWithin(ts, lo, hi) >= 1
    decreases |ts|
  {
    if i < |ts| - 1 {
      SelfCounted(ts[..|ts| - 1], i, lo, hi);
    }
  }

  /** Window containment: moving the lower end down never lowers the count. */
  lemma {:induction false} WiderWindowCountsMore(ts: seq<int>, lo: int, lo': int, hi: int)
    requires lo' <= lo
    ensures CountWithin(ts, lo, hi) <= CountWithin(ts, lo', hi)
    decreases |ts|
  {
    if ts != [] {
      WiderWindowCountsMore(ts[..|ts| - 1], lo, lo', hi);
    }
  }

  /** Counting splits over a concatenation. */
  lemma {:induction false} CountWithinAppend(a: seq<int>, b: seq<int>, lo: int, hi: int)
    ensures CountWithin(a + b, lo, hi) == CountWithin(a, lo, hi) + CountWithin(b, lo, hi)
    decreases |b|
  {
    if b == [] {
      assert a + b == a;
    } else {
      var b' := b[..|b| - 1];
      assert (a + b)[..|a + b| - 1] == a + b';
      CountWithinAppend(a, b', lo, hi);
    }
  }

  /** Timestamps that all lie above hi contribute nothing. */
  lemma {:induction false} CountWithinAbove(ts: seq<int>, lo: int, hi: int)
    requires forall j :: 0 <= j < |ts| ==> ts[j] > hi
    ensures CountWithin(ts, lo, hi) == 0
    decreases |ts|
  {
    if ts != [] {
      CountWithinAbove(ts[..|ts| - 1], lo, hi);
    }
  }

  predicate StrictlyIncreasing(ts: seq<int>) {
    forall i, j :: 0 <= i < j < |ts| ==> ts[i] < ts[j]
  }

  /**
   * On a user's sequence without tied timestamps no later event is counted:
   * the range count of event i looks only at the events before it, so it is
   * at most i, and the first event gets 0.
   */
  lemma NoLaterEventCounted(ts: seq<int>, i: nat, k: int)
    requires StrictlyIncreasing(ts) && i < |ts| && k >= 0
    ensures RangeCount(ts, i, k) == CountWithin(ts[..i], ts[i] - k, ts[i])
    ensures 0 <= RangeCount(ts, i, k) <= i
  {
    var t := ts[i];
    assert ts == ts[..i] + [t] + ts[i + 1..];
    CountWithinAppend(ts[..i] + [t], ts[i + 1..], t - k, t);
    CountWithinAppend(ts[..i], [t], t - k, t);
    assert CountWithin([t], t - k, t) == 1 by {
      assert [t][..0] == [];
    }
    CountWithinAbove(ts[i + 1..], t - k, t);
    CountWithinAtMostLength(ts[..i], t - k, t);
  }

  lemma {:induction false} CountWithinAtMostLength(ts: seq<int>, lo: int, hi: int)
    ensures CountWithin(ts, lo, hi) <= |ts|
    decreases |ts|
  {
    if ts != [] {
      CountWithinAtMostLength(ts[..|ts| - 1], lo, hi);
    }
  }

  /**
   * The count goes by timestamp value over the whole group and is not capped
   * by the history width: n events at one instant each count the other n - 1,
   * including those after them.
   */
  lemma {:induction false} TiedEventsCountEachOther(t: int, n: nat, k: int, i: nat)
    requires k >= 0 && i < n
    ensures RangeCount(Repeat(t, n), i, k) == n - 1
  {
    AllWithin(t, n, t - k, t);
  }

  lemma {:induction false} AllWithin(t: int, n: nat, lo: int, hi: int)
    requires lo <= t <= hi
    ensures CountWithin(Repeat(t, n), lo, hi) == n
  {
    if n > 0 {
      assert Repeat(t, n)[..n - 1] == Repeat(t, n - 1);
      AllWithin(t, n - 1, lo, hi);
    }
  }

  /**
   * Five events 10 ms apart, with a 25 ms mid lookback and a 15 ms short
   * lookback. The third event (t = 20) has mid_len 2: its interval [-5, 20]
   * is closed and holds the events at 0, 10 and 20.
   */
  lemma FiveEventRanges()
    ensures RangesOf([0, 10, 20, 30, 40], 25) == [0, 1, 2, 2, 2]
    ensures RangesOf([0, 10, 20, 30, 40], 15) == [0, 1, 1, 1, 1]
  {
    var ts := [0, 10, 20, 30, 40];
    var mid, short := RangesOf(ts, 25), RangesOf(ts, 15);
    forall i | 0 <= i < 5
      ensures CountWithin(ts, ts[i] - 25, ts[i]) == CountFive(ts, ts[i] - 25, ts[i])
      ensures CountWithin(ts, ts[i] - 15, ts[i]) == CountFive(ts, ts[i] - 15, ts[i])
    {
      CountWithinOfFive(ts, ts[i] - 25, ts[i]);
      CountWithinOfFive(ts, ts[i] - 15, ts[i]);
    }
    assert mid == [0, 1, 2, 2, 2];
    assert short == [0, 1, 1, 1, 1];
  }

  function In(x: int, lo: int, hi: int): nat { if lo <= x <= hi then 1 else 0 }

  function CountFive(ts: seq<int>, lo: int, hi: int): nat
    requires |ts| == 5
  {
    In(ts[0], lo, hi) + In(ts[1], lo, hi) + In(ts[2], lo, hi) + In(ts[3], lo, hi) + In(ts[4], lo, hi)
  }

  lemma CountWithinOfFive(ts: seq<int>, lo: int, hi: int)
    requires |ts| == 5
    ensures CountWithin(ts, lo, hi) == CountFive(ts, lo, hi)
  {
    assert ts[..4][..3] == ts[..3] && ts[..3][..2] == ts[..2] && ts[..2][..1] == ts[..1] && ts[..1][..0] == [];
    assert CountWithin(ts[..1], lo, hi) == In(ts[0], lo, hi);
    assert CountWithin(ts[..2], lo, hi) == CountWithin(ts[..1], lo, hi) + In(ts[1], lo, hi);
    assert CountWithin(ts[..3], lo, hi) == CountWithin(ts[..2], lo, hi) + In(ts[2], lo, hi);
    assert CountWithin(ts[..4], lo, hi) == CountWithin(ts[..3], lo, hi) + In(ts[3], lo, hi);
  }
}
