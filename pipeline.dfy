/**
 * Facts that connect the stages of preprocess_df: what the encoded item
 * column means for the item universe, and what the category rule means for
 * the encoded category column.
 */
module Pipeline {
  import opened Base
  import opened Encoder
  import Category
  import Negatives

  /** The category column as the metadata loader derives it from the category lists. */
  function CategoryColumn<C>(lists: seq<seq<C>>): (column: seq<Option<C>>)
    ensures |column| == |lists|
    ensures forall i :: 0 <= i < |lists| ==> column[i] == Category.Project(lists[i])
  {
    seq(|lists|, i requires 0 <= i < |lists| => Category.Project(lists[i]))
  }

  /**
   * With code 0 reserved, an item whose category list is empty gets
   * category code 0 and every other item a code from 1 to the number of
   * distinct categories.
   */
  lemma EmptyCategoryListEncodesToZero<C>(lists: seq<seq<C>>, i: nat)
    requires i < |lists|
    ensures var codes := Encode(CategoryColumn(lists), true);
      && (codes[i] == 0 <==> lists[i] == [])
      && codes[i] <= |Observed(CategoryColumn(lists))|
  {
    var column := CategoryColumn(lists);
    var v := column[i];
    CodeRange(column, Ranking(column), true, v);
    if v.Some? {
      assert v.value in Observed(column);
    }
  }

  /**
   * When every row has an item, the universe built from the padded item
   * codes is exactly the set of codes the rows carry: 1..d for d distinct
   * items. Code 0 is not in it, so a padding slot is never a sampled item.
   */
  lemma UniverseIsEncodedItems<T>(column: seq<Option<T>>)
    requires column != [] && forall i :: 0 <= i < |column| ==> column[i].Some?
    ensures Negatives.Universe(Encode(column, true)).Some?
    ensures 0 !in Negatives.Universe(Encode(column, true)).value
    ensures |Negatives.Universe(Encode(column, true)).value| == |Observed(column)|
    ensures forall x :: x in Negatives.Universe(Encode(column, true)).value <==>
      exists i :: 0 <= i < |column| && Encode(column, true)[i] == x
  {
    RankingSize(column, Ranking(column));
    UniverseOfFullColumn(column);
    CodesInUse(column);
  }

  /** The universe of a full column's padded codes is 1..d. */
  lemma UniverseOfFullColumn<T>(column: seq<Option<T>>)
    requires column != [] && forall i :: 0 <= i < |column| ==> column[i].Some?
    ensures Negatives.Universe(Encode(column, true)) == Some(Negatives.CodesUpTo(|Ranking(column)|))
  {
    MaxPaddedCodeIsCount(column);
  }

  /** The codes a full column carries are exactly 1..d. */
  lemma CodesInUse<T>(column: seq<Option<T>>)
    requires forall i :: 0 <= i < |column| ==> column[i].Some?
    ensures forall x :: x in Negatives.CodesUpTo(|Ranking(column)|) <==>
      exists i :: 0 <= i < |column| && Encode(column, true)[i] == x
  {
    var codes := Encode(column, true);
    var d := |Ranking(column)|;
    FullColumnCodes(column);
    forall x | x in Negatives.CodesUpTo(d) ensures exists i :: 0 <= i < |column| && codes[i] == x {
      RowWithCode(column, x);
    }
  }

  /** With every row present, the padded codes lie in 1..d. */
  lemma FullColumnCodes<T>(column: seq<Option<T>>)
    requires forall i :: 0 <= i < |column| ==> column[i].Some?
    ensures forall i :: 0 <= i < |column| ==> 1 <= Encode(column, true)[i] <= |Ranking(column)|
  {
    RankingSize(column, Ranking(column));
  }

  /** Some row carries code x, for every x in 1..d. */
  lemma RowWithCode<T>(column: seq<Option<T>>, x: int)
    requires 1 <= x <= |Ranking(column)|
    ensures exists i :: 0 <= i < |column| && Encode(column, true)[i] == x
  {
    var ranking := Ranking(column);
    CodeOfRank(column, ranking, true, x - 1);
    var v := ranking[x - 1];
    RowOfObserved(column, v);
    var i :| 0 <= i < |column| && column[i] == Some(v);
    assert Encode(column, true)[i] == Code(ranking, true, Some(v));
  }

  /** An observed value sits in some row. */
  lemma RowOfObserved<T>(column: seq<Option<T>>, v: T)
    requires v in Observed(column)
    ensures exists i :: 0 <= i < |column| && column[i] == Some(v)
  {
    var i :| 0 <= i < |column| && column[i].Some? && column[i].value == v;
    assert column[i] == Some(v);
  }

  /** The largest padded item code is the number of distinct items. */
  lemma MaxPaddedCodeIsCount<T>(column: seq<Option<T>>)
    requires column != [] && forall i :: 0 <= i < |column| ==> column[i].Some?
    ensures Negatives.MaxOf(Encode(column, true)) == |Ranking(column)|
  {
    var codes := Encode(column, true);
    var d := |Ranking(column)|;
    assert column[0].value in Observed(column);
    RankingSize(column, Ranking(column));
    RowWithCode(column, d);
  }
}
