/**
 * Frequency-rank encoding of one categorical column: the distinct observed
 * values are ranked by how often they occur, most frequent first, and each
 * row is replaced by the rank of its value (shifted by one when code 0 is
 * reserved for padding). Missing values and values outside the ranking
 * become 0.
 */
module Encoder {
  import opened Base

  /** How many rows of the column hold v; a missing entry never matches. */
  function Count<T(==)>(column: seq<Option<T>>, v: T): nat
    decreases |column|
  {
    if column == [] then 0
    else Count(column[..|column| - 1], v) + (if column[|column| - 1] == Some(v) then 1 else 0)
  }

  /** The distinct values that occur in the column (the index of its frequency table). */
  ghost function Observed<T>(column: seq<Option<T>>): set<T> {
    set i | 0 <= i < |column| && column[i].Some? :: column[i].value
  }

  /** Counts never increase along s. */
  ghost predicate NonIncreasing<T>(column: seq<Option<T>>, s: seq<T>) {
    forall i, j :: 0 <= i < j < |s| ==> Count(column, s[i]) >= Count(column, s[j])
  }

  /**
   * ranking is a frequency table of the column: every observed value exactly
   * once, nothing else, most frequent first (ties in any order).
   */
  ghost predicate IsRanking<T>(column: seq<Option<T>>, ranking: seq<T>) {
    && Distinct(ranking)
    && Elements(ranking) == Observed(column)
    && NonIncreasing(column, ranking)
  }

  /** The observed values in order of first appearance. */
  function FirstAppearance<T(==)>(column: seq<Option<T>>): (r: seq<T>)
    ensures Distinct(r)
    ensures Elements(r) == Observed(column)
    decreases |column|
  {
    if column == [] then []
    else
      var init := column[..|column| - 1];
      var prev := FirstAppearance(init);
      var last := column[|column| - 1];
      assert Observed(column) == Observed(init) + (if last.Some? then {last.value} else {}) by {
        assert forall i :: 0 <= i < |init| ==> column[i] == init[i];
      }
      if last.Some? && last.value !in prev then prev + [last.value] else prev
  }

  /**
   * Inserts x after every element whose count is at least x's, so that among
   * equally frequent values the one inserted first stays in front.
   */
  function InsertByCount<T(==)>(column: seq<Option<T>>, sorted: seq<T>, x: T): (r: seq<T>)
    ensures multiset(r) == multiset(sorted) + multiset{x}
    ensures forall j :: 0 <= j < |r| ==> r[j] == x || r[j] in sorted
    decreases |sorted|
  {
    if sorted == [] then [x]
    else if Count(column, sorted[0]) >= Count(column, x) then
      assert sorted == [sorted[0]] + sorted[1..];
      [sorted[0]] + InsertByCount(column, sorted[1..], x)
    else
      [x] + sorted
  }

  /** Insertion keeps a count-sorted sequence count-sorted. */
  lemma {:induction false} InsertKeepsOrder<T>(column: seq<Option<T>>, sorted: seq<T>, x: T)
    requires NonIncreasing(column, sorted)
    ensures NonIncreasing(column, InsertByCount(column, sorted, x))
    decreases |sorted|
  {
    if sorted != [] && Count(column, sorted[0]) >= Count(column, x) {
      var rest := InsertByCount(column, sorted[1..], x);
      InsertKeepsOrder(column, sorted[1..], x);
      var r := InsertByCount(column, sorted, x);
      assert r == [sorted[0]] + rest;
      forall j | 0 <= j < |rest| ensures Count(column, sorted[0]) >= Count(column, rest[j]) {
        if rest[j] != x {
          var k :| 0 <= k < |sorted[1..]| && sorted[1..][k] == rest[j];
          assert sorted[k + 1] == rest[j];
        }
      }
    }
  }

  /** Inserting a new value into a sequence without repetitions keeps it so. */
  lemma {:induction false} InsertKeepsDistinct<T>(column: seq<Option<T>>, sorted: seq<T>, x: T)
    requires Distinct(sorted) && x !in sorted
    ensures Distinct(InsertByCount(column, sorted, x))
    decreases |sorted|
  {
    if sorted != [] && Count(column, sorted[0]) >= Count(column, x) {
      var rest := InsertByCount(column, sorted[1..], x);
      InsertKeepsDistinct(column, sorted[1..], x);
      assert sorted[0] !in sorted[1..];
      assert sorted[0] !in rest;
    }
  }

  /** A stable sort of distinct values by descending count. */
  function SortByCount<T(==)>(column: seq<Option<T>>, values: seq<T>): (r: seq<T>)
    requires Distinct(values)
    ensures multiset(r) == multiset(values)
    ensures Distinct(r)
    ensures NonIncreasing(column, r)
    decreases |values|
  {
    if values == [] then []
    else
      var init := values[..|values| - 1];
      var last := values[|values| - 1];
      var sorted := SortByCount(column, init);
      assert values == init + [last];
      assert last !in sorted by {
        assert last !in multiset(init);
      }
      InsertKeepsOrder(column, sorted, last);
      InsertKeepsDistinct(column, sorted, last);
      InsertByCount(column, sorted, last)
  }

  /** The frequency table of the column, as value_counts orders it. */
  function Ranking<T(==)>(column: seq<Option<T>>): (r: seq<T>)
    ensures IsRanking(column, r)
  {
    var first := FirstAppearance(column);
    var r := SortByCount(column, first);
    assert Elements(r) == Elements(first) by {
      forall v ensures v in r <==> v in first {
        assert v in r <==> v in multiset(r);
        assert v in first <==> v in multiset(first);
      }
    }
    r
  }

  /** Position of v in s. */
  function IndexOf<T(==)>(s: seq<T>, v: T): (i: nat)
    requires v in s
    ensures i < |s| && s[i] == v
    ensures forall j :: 0 <= j < i ==> s[j] != v
  {
    if s[0] == v then 0 else 1 + IndexOf(s[1..], v)
  }

  /** The code given to one entry under a ranking. */
  function Code<T(==)>(ranking: seq<T>, pad: bool, v: Option<T>): nat {
    if v.Some? && v.value in ranking then IndexOf(ranking, v.value) + (if pad then 1 else 0) else 0
  }

  /**
   * encode_column: every row replaced by its code under the column's own
   * ranking. With d distinct observed values, present entries get codes
   * 1..d with padding and 0..d-1 without; missing entries get 0.
   */
  function Encode<T(==)>(column: seq<Option<T>>, pad: bool): (codes: seq<nat>)
    ensures |codes| == |column|
    ensures forall i :: 0 <= i < |column| ==> codes[i] == Code(Ranking(column), pad, column[i])
    ensures forall i :: 0 <= i < |column| && column[i].None? ==> codes[i] == 0
    ensures forall i :: 0 <= i < |column| && column[i].Some? ==>
      if pad then 1 <= codes[i] <= |Observed(column)| else codes[i] < |Observed(column)|
  {
    var ranking := Ranking(column);
    PresentCodesInRange(column, ranking, pad);
    seq(|column|, i requires 0 <= i < |column| => Code(ranking, pad, column[i]))
  }

  /** CodeRange for every entry of the column itself. */
  lemma PresentCodesInRange<T>(column: seq<Option<T>>, ranking: seq<T>, pad: bool)
    requires IsRanking(column, ranking)
    ensures forall i :: 0 <= i < |column| && column[i].None? ==> Code(ranking, pad, column[i]) == 0
    ensures forall i :: 0 <= i < |column| && column[i].Some? ==>
      var c := Code(ranking, pad, column[i]);
      if pad then 1 <= c <= |Observed(column)| else c < |Observed(column)|
  {
    forall i | 0 <= i < |column|
      ensures var c := Code(ranking, pad, column[i]);
        if column[i].None? then c == 0
        else if pad then 1 <= c <= |Observed(column)| else c < |Observed(column)|
    {
      if column[i].Some? {
        assert column[i].value in Observed(column);
      }
      CodeRange(column, ranking, pad, column[i]);
    }
  }

  /** In a distinct sequence the element at k sits at position k. */
  lemma {:induction false} IndexOfDistinct<T>(s: seq<T>, k: nat)
    requires Distinct(s) && k < |s|
    ensures IndexOf(s, s[k]) == k
  {
    var i := IndexOf(s, s[k]);
    assert s[i] == s[k];
  }

  /** The ranking has one entry per distinct observed value. */
  lemma RankingSize<T>(column: seq<Option<T>>, ranking: seq<T>)
    requires IsRanking(column, ranking)
    ensures |ranking| == |Observed(column)|
  {
    DistinctCard(ranking);
  }

  /**
   * Observed values get codes 1..d with padding and 0..d-1 without, where d
   * is the number of distinct observed values; missing and unobserved
   * values get 0.
   */
  lemma CodeRange<T>(column: seq<Option<T>>, ranking: seq<T>, pad: bool, v: Option<T>)
    requires IsRanking(column, ranking)
    ensures var c := Code(ranking, pad, v);
            var d := |Observed(column)|;
            if v.Some? && v.value in Observed(column) then
              (pad ==> 1 <= c <= d) && (!pad ==> c < d)
            else c == 0
  {
    RankingSize(column, ranking);
    assert v.Some? ==> (v.value in ranking <==> v.value in Elements(ranking));
  }

  /**
   * The value at rank k gets code k (k + 1 with padding): every code of the
   * range is used.
   */
  lemma CodeOfRank<T>(column: seq<Option<T>>, ranking: seq<T>, pad: bool, k: nat)
    requires IsRanking(column, ranking) && k < |ranking|
    ensures ranking[k] in Observed(column)
    ensures Code(ranking, pad, Some(ranking[k])) == k + (if pad then 1 else 0)
  {
    assert ranking[k] in Elements(ranking);
    IndexOfDistinct(ranking, k);
  }

  /**
   * Distinct observed values get distinct codes; with padding a missing
   * value is also told apart from every observed one.
   */
  lemma CodeInjective<T>(column: seq<Option<T>>, ranking: seq<T>, pad: bool, a: Option<T>, b: Option<T>)
    requires IsRanking(column, ranking)
    requires a.None? || a.value in Observed(column)
    requires b.None? || b.value in Observed(column)
    requires pad || (a.Some? && b.Some?)
    requires Code(ranking, pad, a) == Code(ranking, pad, b)
    ensures a == b
  {
    if a.Some? {
      assert a.value in Elements(ranking);
    }
    if b.Some? {
      assert b.value in Elements(ranking);
    }
  }

  /** A strictly more frequent value gets a strictly smaller code. */
  lemma MoreFrequentSmallerCode<T>(column: seq<Option<T>>, ranking: seq<T>, pad: bool, x: T, y: T)
    requires IsRanking(column, ranking)
    requires x in Observed(column) && y in Observed(column)
    requires Count(column, x) > Count(column, y)
    ensures Code(ranking, pad, Some(x)) < Code(ranking, pad, Some(y))
  {
    assert x in Elements(ranking) && y in Elements(ranking);
  }

  /**
   * Without padding the most frequent value takes code 0, the code a
   * missing entry also gets, so the unpadded encoding only tells values
   * apart on a column without missing entries.
   */
  lemma UnpaddedMissingSharesCodeZero<T>(column: seq<Option<T>>, i: nat, j: nat)
    requires i < |column| && j < |column| && Ranking(column) != []
    requires column[i].None? && column[j] == Some(Ranking(column)[0])
    ensures Encode(column, false)[i] == 0
    ensures Encode(column, false)[j] == 0
  {
    CodeOfRank(column, Ranking(column), false, 0);
  }

  /** The column [5, missing]: both entries are encoded as 0 without padding. */
  lemma UnpaddedMissingExample()
    ensures Encode([Some(5), None], false) == [0, 0]
  {
    var column := [Some(5), None];
    assert column[..1] == [Some(5)] && [Some(5)][..0] == [];
    assert FirstAppearance(column) == [5];
    assert Ranking(column) == [5];
  }
}
