/**
 Shared vocabulary: optional values, results, and the maximum and the
 ascending enumeration of finite collections of integers.
 */
module Common {

  /** A value that may be absent: JavaScript's `null`/`undefined`, or a value. */
  datatype Option<+T> = None | Some(value: T) {

    /** The value, or `default` when absent (the `??` operator). */
    function GetOr(default: T): T {
      match this
      case Some(v) => v
      case None => default
    }
  }

  /** A computation that either produces a value or fails with an error. */
  datatype Result<+T, +E> = Ok(value: T) | Err(error: E)

  /** The largest element of a non-empty sequence (`Math.max(...xs)`). */
  function SeqMax(xs: seq<int>): (m: int)
    requires |xs| > 0
    ensures m in xs
    ensures forall i :: 0 <= i < |xs| ==> xs[i] <= m
  {
    if |xs| == 1 then xs[0]
    else
      var rest := SeqMax(xs[1..]);
      if xs[0] >= rest then xs[0] else rest
  }

  /** The maximum of a possibly empty sequence, `None` when it is empty
      (SQL's `MAX` over no rows). */
  function MaxOf(xs: seq<int>): (m: Option<int>)
    ensures m.None? <==> |xs| == 0
    ensures m.Some? ==> m.value in xs && forall i :: 0 <= i < |xs| ==> xs[i] <= m.value
  {
    if |xs| == 0 then None else Some(SeqMax(xs))
  }

  /** `m` is the least element of `s`. */
  predicate IsLeast(s: set<int>, m: int) {
    m in s && forall x | x in s :: m <= x
  }

  lemma NonEmptyHasElement(s: set<int>)
    requires s != {}
    ensures exists y :: y in s
  {
    assert (forall y :: y !in s) ==> s == {};
  }

  lemma {:induction false} MinExists(s: set<int>)
    requires s != {}
    ensures exists m :: IsLeast(s, m)
    decreases |s|
  {
    NonEmptyHasElement(s);
    var y :| y in s;
    if s == {y} {
      assert IsLeast(s, y);
    } else {
      var rest := s - {y};
      assert rest != {} by {
        assert s == rest + {y};
      }
      MinExists(rest);
      var m :| IsLeast(rest, m);
      var least := if y < m then y else m;
      assert least in s;
      forall x | x in s
        ensures least <= x
      {
        if x != y {
          assert x in rest;
        }
      }
      assert IsLeast(s, least);
    }
  }

  /** The least element of a non-empty finite set of integers. */
  function SetMin(s: set<int>): (m: int)
    requires s != {}
    ensures m in s
    ensures forall x | x in s :: m <= x
  {
    MinExists(s);
    var m :| IsLeast(s, m);
    m
  }

  /** A map has as many entries as keys. */
  lemma MapCardIsKeysCard<K, V>(m: map<K, V>)
    ensures |m| == |m.Keys|
  {
  }

  /** The elements of `s` in ascending order: the order in which
      `Object.entries` lists an object's non-negative integer (array-index)
      keys. Negative keys are listed in insertion order instead, which this
      order does not model. */
  function SortedKeys(s: set<int>): (r: seq<int>)
    ensures |r| == |s|
    ensures forall i :: 0 <= i < |r| ==> r[i] in s
    ensures forall x | x in s :: x in r
    ensures forall i, j :: 0 <= i < j < |r| ==> r[i] < r[j]
    decreases |s|
  {
    if s == {} then []
    else
      var m := SetMin(s);
      var rest := SortedKeys(s - {m});
      AscendingCons(s, m, rest);
      [m] + rest
  }

  /** Putting the least element in front of the ascending listing of the
      rest lists the whole set in ascending order. */
  lemma AscendingCons(s: set<int>, m: int, rest: seq<int>)
    requires IsLeast(s, m)
    requires |rest| == |s - {m}|
    requires forall i :: 0 <= i < |rest| ==> rest[i] in s - {m}
    requires forall x | x in s - {m} :: x in rest
    requires forall i, j :: 0 <= i < j < |rest| ==> rest[i] < rest[j]
    ensures |[m] + rest| == |s|
    ensures forall i :: 0 <= i < |[m] + rest| ==> ([m] + rest)[i] in s
    ensures forall x | x in s :: x in [m] + rest
    ensures forall i, j :: 0 <= i < j < |[m] + rest| ==> ([m] + rest)[i] < ([m] + rest)[j]
  {
    var r := [m] + rest;
    assert |s - {m}| == |s| - 1;
    forall i, j | 0 <= i < j < |r|
      ensures r[i] < r[j]
    {
      assert r[j] == rest[j - 1];
      if i > 0 {
        assert r[i] == rest[i - 1];
      } else {
        assert r[j] in s - {m};
      }
    }
  }
}
