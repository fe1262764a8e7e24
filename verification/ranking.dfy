/**
 `computeRanking`: the entries of a totals object sorted by score, highest
 first, with equal scores ordered by ascending eneatype. Because eneatypes
 are distinct keys, the comparator never calls two entries equal, so the
 ranking is fully determined by the totals.
 */
module Ranking {
  import opened Common
  import opened Domain

  /** The sort comparator: `a` goes before `b`. */
  predicate Before(a: RankEntry, b: RankEntry) {
    a.score > b.score || (a.score == b.score && a.eneatype < b.eneatype)
  }

  /** Every entry goes before every later one. */
  predicate StrictlySorted(s: seq<RankEntry>) {
    forall i, j :: 0 <= i < j < |s| ==> Before(s[i], s[j])
  }

  /** No two entries share an eneatype. */
  predicate DistinctEneatypes(s: seq<RankEntry>) {
    forall i, j :: 0 <= i < j < |s| ==> s[i].eneatype != s[j].eneatype
  }

  /** `s` lists exactly the (eneatype, score) pairs of `totals`. */
  predicate ListsTotals(s: seq<RankEntry>, totals: Totals) {
    && (forall i :: 0 <= i < |s| ==> s[i].eneatype in totals && s[i].score == totals[s[i].eneatype])
    && (forall e | e in totals :: RankEntry(e, totals[e]) in s)
  }

  /** `Object.entries(totals)` mapped to entries: ascending by eneatype. */
  function Entries(totals: Totals): (r: seq<RankEntry>)
    ensures |r| == |totals|
    ensures ListsTotals(r, totals)
    ensures forall i, j :: 0 <= i < j < |r| ==> r[i].eneatype < r[j].eneatype
  {
    var keys := SortedKeys(totals.Keys);
    EntriesOfKeys(totals, keys);
    EntriesOf(totals, keys)
  }

  /** Each key paired with its score. */
  function EntriesOf(totals: Totals, keys: seq<int>): (r: seq<RankEntry>)
    requires forall i :: 0 <= i < |keys| ==> keys[i] in totals
    ensures |r| == |keys|
    ensures forall i :: 0 <= i < |r| ==> r[i] == RankEntry(keys[i], totals[keys[i]])
  {
    seq(|keys|, i requires 0 <= i < |keys| => RankEntry(keys[i], totals[keys[i]]))
  }

  /** Pairing each key of an ascending listing of the keys with its score
      lists the totals, in ascending eneatype order. */
  lemma EntriesOfKeys(totals: Totals, keys: seq<int>)
    requires |keys| == |totals.Keys|
    requires forall i :: 0 <= i < |keys| ==> keys[i] in totals
    requires forall e | e in totals :: e in keys
    requires forall i, j :: 0 <= i < j < |keys| ==> keys[i] < keys[j]
    ensures |EntriesOf(totals, keys)| == |totals|
    ensures ListsTotals(EntriesOf(totals, keys), totals)
    ensures forall i, j :: 0 <= i < j < |keys| ==> EntriesOf(totals, keys)[i].eneatype < EntriesOf(totals, keys)[j].eneatype
  {
    var r := EntriesOf(totals, keys);
    MapCardIsKeysCard(totals);
    forall e | e in totals
      ensures RankEntry(e, totals[e]) in r
    {
      var i :| 0 <= i < |keys| && keys[i] == e;
      assert r[i] == RankEntry(e, totals[e]);
    }
  }

  /** Inserts `x` before the first entry it goes before. */
  function Insert(x: RankEntry, s: seq<RankEntry>): (r: seq<RankEntry>)
    ensures multiset(r) == multiset(s) + multiset{x}
  {
    if |s| == 0 then [x]
    else if Before(x, s[0]) then [x] + s
    else
      assert s == [s[0]] + s[1..];
      [s[0]] + Insert(x, s[1..])
  }

  lemma {:induction false} InsertSorted(x: RankEntry, s: seq<RankEntry>)
    requires StrictlySorted(s)
    requires forall e | e in s :: e.eneatype != x.eneatype
    ensures StrictlySorted(Insert(x, s))
  {
    if |s| > 0 && !Before(x, s[0]) {
      var tail := Insert(x, s[1..]);
      InsertSorted(x, s[1..]);
      assert Before(s[0], x);
      forall e | e in tail
        ensures Before(s[0], e)
      {
        assert e in multiset(tail);
        if e != x {
          assert e in s[1..];
          var j :| 0 <= j < |s[1..]| && s[1..][j] == e;
          assert s[j + 1] == e;
        }
      }
      var r := [s[0]] + tail;
      assert Insert(x, s) == r;
      forall i, j | 0 <= i < j < |r|
        ensures Before(r[i], r[j])
      {
        if i == 0 {
          assert r[j] == tail[j - 1];
          assert r[j] in tail;
        } else {
          assert r[i] == tail[i - 1] && r[j] == tail[j - 1];
        }
      }
    }
  }

  /** Insertion sort by `Before`. */
  function SortEntries(s: seq<RankEntry>): (r: seq<RankEntry>)
    ensures multiset(r) == multiset(s)
  {
    if |s| == 0 then []
    else
      assert s == [s[0]] + s[1..];
      Insert(s[0], SortEntries(s[1..]))
  }

  lemma {:induction false} SortEntriesSorted(s: seq<RankEntry>)
    requires DistinctEneatypes(s)
    ensures StrictlySorted(SortEntries(s))
  {
    if |s| > 0 {
      var rest := SortEntries(s[1..]);
      assert DistinctEneatypes(s[1..]);
      SortEntriesSorted(s[1..]);
      forall e | e in rest
        ensures e.eneatype != s[0].eneatype
      {
        assert e in multiset(s[1..]);
        var j :| 0 <= j < |s[1..]| && s[1..][j] == e;
        assert s[j + 1] == e;
      }
      InsertSorted(s[0], rest);
    }
  }

  lemma SameElements(a: seq<RankEntry>, b: seq<RankEntry>)
    requires multiset(a) == multiset(b)
    ensures |a| == |b|
    ensures forall e :: e in a <==> e in b
  {
    assert |a| == |multiset(a)|;
    assert |b| == |multiset(b)|;
    forall e
      ensures e in a <==> e in b
    {
      assert e in a <==> e in multiset(a);
      assert e in b <==> e in multiset(b);
    }
  }

  lemma ListsTotalsTransfer(a: seq<RankEntry>, b: seq<RankEntry>, totals: Totals)
    requires ListsTotals(a, totals)
    requires forall e :: e in a <==> e in b
    ensures ListsTotals(b, totals)
  {
    forall i | 0 <= i < |b|
      ensures b[i].eneatype in totals && b[i].score == totals[b[i].eneatype]
    {
      assert b[i] in a;
      var j :| 0 <= j < |a| && a[j] == b[i];
    }
  }

  lemma ListedEntriesAreDistinct(s: seq<RankEntry>, totals: Totals)
    requires StrictlySorted(s)
    requires ListsTotals(s, totals)
    ensures DistinctEneatypes(s)
  {
    forall i, j | 0 <= i < j < |s|
      ensures s[i].eneatype != s[j].eneatype
    {
      assert Before(s[i], s[j]);
    }
  }

  /** `computeRanking(totals)`: every (eneatype, score) pair of the totals
      exactly once, sorted by score descending and then eneatype ascending. */
  function ComputeRanking(totals: Totals): (r: seq<RankEntry>)
    ensures |r| == |totals|
    ensures StrictlySorted(r)
    ensures ListsTotals(r, totals)
    ensures DistinctEneatypes(r)
  {
    var entries := Entries(totals);
    var r := SortEntries(entries);
    SortEntriesSorted(entries);
    SameElements(r, entries);
    ListsTotalsTransfer(entries, r, totals);
    ListedEntriesAreDistinct(r, totals);
    r
  }

  lemma {:induction false} FirstGoesBeforeRest(s: seq<RankEntry>, e: RankEntry)
    requires StrictlySorted(s)
    requires e in s && e != s[0]
    ensures Before(s[0], e)
  {
    var j :| 0 <= j < |s| && s[j] == e;
  }

  lemma {:induction false} StrictlySortedUnique(a: seq<RankEntry>, b: seq<RankEntry>)
    requires StrictlySorted(a) && StrictlySorted(b)
    requires forall e :: e in a <==> e in b
    ensures a == b
    decreases |a|
  {
    assert |a| > 0 ==> a[0] in b;
    assert |b| > 0 ==> b[0] in a;
    if |a| > 0 {
      assert a[0] != b[0] ==> Before(b[0], a[0]) && Before(a[0], b[0]) by {
        if a[0] != b[0] {
          FirstGoesBeforeRest(b, a[0]);
          FirstGoesBeforeRest(a, b[0]);
        }
      }
      forall e
        ensures e in a[1..] <==> e in b[1..]
      {
        if e in a[1..] {
          var j :| 0 <= j < |a[1..]| && a[1..][j] == e;
          assert a[j + 1] == e && Before(a[0], a[j + 1]);
          assert e in b;
          var k :| 0 <= k < |b| && b[k] == e;
          assert k != 0;
          assert b[1..][k - 1] == e;
        }
        if e in b[1..] {
          var j :| 0 <= j < |b[1..]| && b[1..][j] == e;
          assert b[j + 1] == e && Before(b[0], b[j + 1]);
          assert e in a;
          var k :| 0 <= k < |a| && a[k] == e;
          assert k != 0;
          assert a[1..][k - 1] == e;
        }
      }
      StrictlySortedUnique(a[1..], b[1..]);
      assert a == [a[0]] + a[1..];
      assert b == [b[0]] + b[1..];
    }
  }

  /** The ranking is the only strictly sorted list of the totals' entries:
      any sort with this comparator yields the same sequence. */
  lemma RankingDetermined(totals: Totals, r: seq<RankEntry>)
    requires StrictlySorted(r)
    requires ListsTotals(r, totals)
    ensures r == ComputeRanking(totals)
  {
    var c := ComputeRanking(totals);
    forall e
      ensures e in r <==> e in c
    {
      if e in r {
        var i :| 0 <= i < |r| && r[i] == e;
        assert e == RankEntry(e.eneatype, totals[e.eneatype]);
      }
      if e in c {
        var i :| 0 <= i < |c| && c[i] == e;
        assert e == RankEntry(e.eneatype, totals[e.eneatype]);
      }
    }
    StrictlySortedUnique(r, c);
  }

}
