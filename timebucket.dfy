/**
 * The unit_time column: each timestamp's offset from the earliest timestamp
 * of the whole table, floor-divided by the configured bucket width.
 */
module TimeBucket {

  /** Python's a // b: the quotient rounded towards minus infinity. */
  function FloorDiv(a: int, b: int): (q: int)
    requires b != 0
    ensures b > 0 ==> b * q <= a < b * q + b
    ensures b < 0 ==> b * q + b < a <= b * q
    ensures b > 0 && a >= 0 ==> q >= 0
  {
    if b > 0 then a / b else (-a) / (-b)
  }

  /** The earliest timestamp. */
  function MinOf(ts: seq<int>): (m: int)
    requires ts != []
    ensures m in ts
    ensures forall i :: 0 <= i < |ts| ==> m <= ts[i]
    decreases |ts|
  {
    if |ts| == 1 then ts[0]
    else
      var rest := MinOf(ts[1..]);
      if ts[0] <= rest then ts[0] else rest
  }

  /** unit_time for every row. */
  function UnitTime(ts: seq<int>, timeRange: int): (u: seq<int>)
    requires timeRange != 0
    ensures |u| == |ts|
    ensures timeRange > 0 ==> forall i :: 0 <= i < |ts| ==>
      u[i] >= 0 && timeRange * u[i] <= ts[i] - MinOf(ts) < timeRange * u[i] + timeRange
  {
    if ts == [] then []
    else
      var m := MinOf(ts);
      seq(|ts|, i requires 0 <= i < |ts| => FloorDiv(ts[i] - m, timeRange))
  }

  /**
   * With a positive bucket width, the earliest rows fall into bucket 0 and a
   * later timestamp never falls into an earlier bucket.
   */
  lemma UnitTimeMonotone(ts: seq<int>, timeRange: int, i: nat, j: nat)
    requires timeRange > 0 && i < |ts| && j < |ts|
    ensures ts[i] == MinOf(ts) ==> UnitTime(ts, timeRange)[i] == 0
    ensures ts[i] <= ts[j] ==> UnitTime(ts, timeRange)[i] <= UnitTime(ts, timeRange)[j]
  {
    var u := UnitTime(ts, timeRange);
    var m := MinOf(ts);
    if ts[i] == m {
      BucketOrder(timeRange, ts[i] - m, 0, u[i], 0);
    }
    if ts[i] <= ts[j] {
      BucketOrder(timeRange, ts[i] - m, ts[j] - m, u[i], u[j]);
    }
  }

  /** Buckets of width c are ordered like the offsets they contain. */
  lemma BucketOrder(c: int, a: int, b: int, qa: int, qb: int)
    requires c > 0 && a <= b
    requires c * qa <= a && b < c * qb + c
    ensures qa <= qb
  {
    if qa > qb {
      MulStep(c, qa, qb);
      assert false;
    }
  }

  lemma MulStep(c: int, x: int, y: int)
    requires c > 0 && x > y
    ensures c * x >= c * y + c
  {
    var d := x - y - 1;
    assert c * x == c * y + c + c * d;
  }
}
