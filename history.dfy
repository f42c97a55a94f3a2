/**
 * The history windower: for every event of a user, the values of the last
 * (at most) 128 events up to and including it, left-padded to width 128.
 */
module History {
  import opened Base
  import opened Grouping

  /** Width of every history window. */
  const HistoryLength: nat := 128

  /**
   * The window of the event at position i of a user's sequence: the slice
   * values[max(0, i-L+1) .. i+1], preceded by as many pad values as make
   * width L. Slot L-1 is the event itself, and slot j shows the event (L-1)-j
   * positions back, or pad where there is none.
   */
  function Window<T>(values: seq<T>, i: nat, L: nat, pad: T): (w: seq<T>)
    requires i < |values| && L > 0
    ensures |w| == L
    ensures w[L - 1] == values[i]
    ensures forall j :: 0 <= j < L ==>
      w[j] == if j < L - Min(i + 1, L) then pad else values[i + 1 - L + j]
  {
    var start := if i + 1 >= L then i + 1 - L else 0;
    Repeat(pad, L - (i + 1 - start)) + values[start..i + 1]
  }

  /**
   * get_history over one user's sequence: one window per event, appended in
   * event order.
   */
  method GetHistory<T>(group: seq<T>, pad: T) returns (histories: seq<seq<T>>)
    ensures |histories| == |group|
    ensures forall i :: 0 <= i < |group| ==> histories[i] == Window(group, i, HistoryLength, pad)
    ensures forall i :: 0 <= i < |group| ==>
      |histories[i]| == HistoryLength && histories[i][HistoryLength - 1] == group[i]
  {
    histories := [];
    for i := 0 to |group|
      invariant |histories| == i
      invariant forall k :: 0 <= k < i ==> histories[k] == Window(group, k, HistoryLength, pad)
    {
      var start := if i - HistoryLength + 1 > 0 then i - HistoryLength + 1 else 0;
      var history := group[start..i + 1];
      histories := histories + [Repeat(pad, HistoryLength - |history|) + history];
    }
  }

  /** A window never looks past its own event: later values do not matter. */
  lemma WindowOfPast<T>(values: seq<T>, i: nat, L: nat, pad: T, later: seq<T>)
    requires i < |values| && L > 0
    ensures Window(values + later, i, L, pad) == Window(values, i, L, pad)
  {
    var a, b := Window(values + later, i, L, pad), Window(values, i, L, pad);
    assert forall j :: 0 <= j < L ==> a[j] == b[j];
  }

  /**
   * The history column of a whole table, as transform(get_history) on the
   * user column builds it: row r gets the window of its position in its
   * user's group.
   */
  function HistoryColumn<K(==), T>(keys: seq<K>, values: seq<T>, pad: T): (col: seq<seq<T>>)
    requires |keys| == |values|
    ensures |col| == |keys|
    ensures forall r :: 0 <= r < |keys| ==>
      |col[r]| == HistoryLength && col[r][HistoryLength - 1] == values[r]
    ensures forall r :: 0 <= r < |keys| ==>
      && PosInGroup(keys, r) < |Group(keys[..r + 1], values[..r + 1], keys[r])|
      && col[r] == Window(Group(keys[..r + 1], values[..r + 1], keys[r]), PosInGroup(keys, r), HistoryLength, pad)
  {
    seq(|keys|, r requires 0 <= r < |keys| => OwnHistory(keys, values, pad, r))
  }

  /**
   * No leakage: row r's window, taken at r's position in its whole group,
   * is the window over the rows 0..r of r's own user. Rows of other users,
   * and rows after r, do not influence it, and its last slot is row r's
   * own value.
   */
  function OwnHistory<K(==), T>(keys: seq<K>, values: seq<T>, pad: T, r: nat): (w: seq<T>)
    requires |keys| == |values| && r < |keys|
    ensures |w| == HistoryLength && w[HistoryLength - 1] == values[r]
    ensures PosInGroup(keys, r) < |Group(keys[..r + 1], values[..r + 1], keys[r])|
    ensures w == Window(Group(keys[..r + 1], values[..r + 1], keys[r]), PosInGroup(keys, r), HistoryLength, pad)
  {
    RowInGroup(keys, values, r);
    var g := Group(keys, values, keys[r]);
    var p := PosInGroup(keys, r);
    assert g == g[..p + 1] + g[p + 1..];
    WindowOfPast(g[..p + 1], p, HistoryLength, pad, g[p + 1..]);
    Window(g, p, HistoryLength, pad)
  }

  /** Five events with item codes 3, 7, 3, 9, 2 and windows of width 3. */
  lemma FiveEventWindows()
    ensures Window([3, 7, 3, 9, 2], 0, 3, 0) == [0, 0, 3]
    ensures Window([3, 7, 3, 9, 2], 1, 3, 0) == [0, 3, 7]
    ensures Window([3, 7, 3, 9, 2], 2, 3, 0) == [3, 7, 3]
    ensures Window([3, 7, 3, 9, 2], 3, 3, 0) == [7, 3, 9]
    ensures Window([3, 7, 3, 9, 2], 4, 3, 0) == [3, 9, 2]
  {
  }
}
