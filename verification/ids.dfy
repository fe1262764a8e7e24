/**
 Fresh identifiers for locally created records.
 */
module Ids {
  import opened Common

  /** `nextId(items)` over the items' ids: one more than the largest, or 1
      for an empty list. */
  function NextId(ids: seq<int>): (r: int)
    ensures |ids| == 0 ==> r == 1
    ensures |ids| > 0 ==> r - 1 in ids
    ensures forall i :: 0 <= i < |ids| ==> ids[i] < r
  {
    if |ids| == 0 then 1 else SeqMax(ids) + 1
  }

  /** The new id is fresh, and positive when no id is negative. */
  lemma NextIdFresh(ids: seq<int>)
    ensures NextId(ids) !in ids
    ensures (forall i :: 0 <= i < |ids| ==> ids[i] >= 0) ==> NextId(ids) >= 1
  {
    if |ids| > 0 {
      assert ids[0] >= 0 ==> NextId(ids) >= 1;
    }
  }

  /** Appending the allocated id and allocating again moves on by one:
      repeated allocation never repeats an id. */
  lemma NextIdAdvances(ids: seq<int>)
    ensures NextId(ids + [NextId(ids)]) == NextId(ids) + 1
  {
    var n := NextId(ids);
    var r := NextId(ids + [n]);
    assert (ids + [n])[|ids|] == n;
    assert r - 1 in ids + [n];
  }
}
