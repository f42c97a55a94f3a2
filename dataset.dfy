/**
 * MakeDataset: a read-only container of feature columns, one entry per row,
 * with a length and an index operation that returns every field of one row.
 * The negative-item column is optional and appears in a record exactly when
 * it was supplied.
 */
module Dataset {
  import opened Base

  /** One record as the index operation returns it. */
  datatype Sample = Sample(
    user: int, item: int, cat: int, con: real, qlt: real,
    itemHis: seq<int>, catHis: seq<int>, conHis: seq<real>, qltHis: seq<real>,
    midLen: int, shortLen: int,
    negItems: Option<seq<int>>)

  /** idx is a valid Python index into a sequence of length n (negative counts from the end). */
  predicate InRange(idx: int, n: nat) {
    -(n as int) <= idx < n
  }

  /** The position a valid Python index denotes. */
  function Position(idx: int, n: nat): (p: nat)
    requires InRange(idx, n)
    ensures p < n
    ensures p == idx || p == idx + n
  {
    if idx < 0 then idx + n else idx
  }

  datatype MakeDataset = MakeDataset(
    users: seq<int>, items: seq<int>, cats: seq<int>, cons: seq<real>, qlts: seq<real>,
    itemHistories: seq<seq<int>>, catHistories: seq<seq<int>>,
    conHistories: seq<seq<real>>, qltHistories: seq<seq<real>>,
    midLens: seq<int>, shortLens: seq<int>,
    negItems: Option<seq<seq<int>>>)
  {
    /** __len__: the number of user entries. */
    function Len(): nat {
      |users|
    }

    /** idx can be used on every column (the supplied negative column included). */
    predicate Indexable(idx: int) {
      && InRange(idx, |users|) && InRange(idx, |items|) && InRange(idx, |cats|)
      && InRange(idx, |cons|) && InRange(idx, |qlts|)
      && InRange(idx, |itemHistories|) && InRange(idx, |catHistories|)
      && InRange(idx, |conHistories|) && InRange(idx, |qltHistories|)
      && InRange(idx, |midLens|) && InRange(idx, |shortLens|)
      && (negItems.Some? ==> InRange(idx, |negItems.value|))
    }

    /** Every column has one entry per user entry. */
    predicate Aligned() {
      var n := |users|;
      && |items| == n && |cats| == n && |cons| == n && |qlts| == n
      && |itemHistories| == n && |catHistories| == n && |conHistories| == n && |qltHistories| == n
      && |midLens| == n && |shortLens| == n
      && (negItems.Some? ==> |negItems.value| == n)
    }

    /**
     * __getitem__: the idx-th entry of every column, and of the negative
     * column only when it was supplied; None where some column has no such
     * entry (the IndexError of the source).
     */
    function GetItem(idx: int): (r: Option<Sample>)
      ensures r.Some? <==> Indexable(idx)
      ensures r.Some? ==> (r.value.negItems.Some? <==> negItems.Some?)
    {
      if !Indexable(idx) then None
      else
        var neg := if negItems.Some? then Some(negItems.value[Position(idx, |negItems.value|)]) else None;
        Some(Sample(
          users[Position(idx, |users|)], items[Position(idx, |items|)], cats[Position(idx, |cats|)],
          cons[Position(idx, |cons|)], qlts[Position(idx, |qlts|)],
          itemHistories[Position(idx, |itemHistories|)], catHistories[Position(idx, |catHistories|)],
          conHistories[Position(idx, |conHistories|)], qltHistories[Position(idx, |qltHistories|)],
          midLens[Position(idx, |midLens|)], shortLens[Position(idx, |shortLens|)],
          neg))
    }
  }

  /**
   * On a dataset whose columns are aligned, Len() counts the records: every
   * index 0 .. Len()-1 yields the fields of that row, index Len() fails, and
   * index i - Len() denotes the same record as i.
   */
  lemma LenCountsRecords(d: MakeDataset, i: nat)
    requires d.Aligned() && i < d.Len()
    ensures d.GetItem(i).Some? && d.GetItem(i) == d.GetItem(i - d.Len())
    ensures d.GetItem(d.Len()).None?
    ensures var s := d.GetItem(i).value;
      && s.user == d.users[i] && s.item == d.items[i] && s.cat == d.cats[i]
      && s.con == d.cons[i] && s.qlt == d.qlts[i]
      && s.itemHis == d.itemHistories[i] && s.catHis == d.catHistories[i]
      && s.conHis == d.conHistories[i] && s.qltHis == d.qltHistories[i]
      && s.midLen == d.midLens[i] && s.shortLen == d.shortLens[i]
      && s.negItems == (if d.negItems.Some? then Some(d.negItems.value[i]) else None)
  {
  }

  /**
   * Fixed shapes carry over: when every history has width w and every
   * supplied negative list width k, every record has those widths.
   */
  lemma RecordShapes(d: MakeDataset, idx: int, w: nat, k: nat)
    requires forall j :: 0 <= j < |d.itemHistories| ==> |d.itemHistories[j]| == w
    requires forall j :: 0 <= j < |d.catHistories| ==> |d.catHistories[j]| == w
    requires forall j :: 0 <= j < |d.conHistories| ==> |d.conHistories[j]| == w
    requires forall j :: 0 <= j < |d.qltHistories| ==> |d.qltHistories[j]| == w
    requires d.negItems.Some? ==> forall j :: 0 <= j < |d.negItems.value| ==> |d.negItems.value[j]| == k
    requires d.GetItem(idx).Some?
    ensures |d.GetItem(idx).value.itemHis| == w && |d.GetItem(idx).value.catHis| == w
    ensures |d.GetItem(idx).value.conHis| == w && |d.GetItem(idx).value.qltHis| == w
    ensures d.GetItem(idx).value.negItems.Some? ==> |d.GetItem(idx).value.negItems.value| == k
  {
  }
}
