/** The category rule applied to item metadata when it is loaded. */
module Category {
  import opened Base

  /**
   * The single category kept for an item: the second entry of its category
   * list when it has at least two, its only entry when it has one, and
   * nothing when the list is empty.
   */
  function Project<C>(categories: seq<C>): (r: Option<C>)
    ensures r.None? <==> categories == []
    ensures categories != [] ==> r == Some(categories[Min(|categories|, 2) - 1])
  {
    if |categories| > 1 then Some(categories[1])
    else if |categories| == 1 then Some(categories[0])
    else None
  }
}
