/**
 The server's definition loader: the scale of a `test_definition` row, and
 the grouping of the flat questionnaire/item join rows into an ordered
 questionnaire → items tree. The store's filtering and `ORDER BY` are not
 modelled: the join rows arrive as an already ordered sequence, and the
 definition table as a sequence searched front to back.
 */
module ServerDefinition {
  import opened Common
  import opened Domain

  /** One row of the questionnaire/item join. */
  datatype JoinRow = JoinRow(
    questionnaireId: int,
    eneatype: int,
    title: string,
    orderIndex: int,
    itemId: int,
    itemOrder: int,
    itemText: string,
    itemActive: int)

  /** A `test_definition` row; `labels` is the parsed `scale_labels_json`,
      `None` when the column is null. */
  datatype DefinitionRow = DefinitionRow(
    id: string,
    name: string,
    language: string,
    scaleMin: int,
    scaleMax: int,
    labels: Option<map<string, string>>,
    version: int,
    isActive: int)

  /** `mapScale(row)`: bounds straight from the row; missing labels become
      the empty map. */
  function MapScale(row: DefinitionRow): (r: Scale)
    ensures r.min == row.scaleMin && r.max == row.scaleMax
    ensures row.labels.None? ==> r.labels == map[]
    ensures row.labels.Some? ==> r.labels == row.labels.value
  {
    Scale(row.scaleMin, row.scaleMax, row.labels.GetOr(map[]))
  }

  /** The item a join row contributes. */
  function RowItem(row: JoinRow): (r: Item)
    ensures r.id == row.itemId && r.order == row.itemOrder && r.text == row.itemText
    ensures r.isActive <==> row.itemActive == 1
  {
    Item(row.itemId, row.itemOrder, row.itemText, row.itemActive == 1)
  }

  /** The questionnaire header a row creates, before any item is pushed. */
  function Header(row: JoinRow): Questionnaire {
    Questionnaire(row.questionnaireId, row.eneatype, row.title, row.orderIndex, [])
  }

  /** `questionnaireMap.get(id)`: the position of the questionnaire with this id. */
  function FindQuestionnaire(qs: seq<Questionnaire>, qid: int): (r: Option<nat>)
    ensures r.Some? ==> r.value < |qs| && qs[r.value].id == qid
    ensures r.None? ==> forall i :: 0 <= i < |qs| ==> qs[i].id != qid
  {
    if |qs| == 0 then None
    else if qs[0].id == qid then Some(0)
    else match FindQuestionnaire(qs[1..], qid)
      case None => None
      case Some(i) => Some(i + 1)
  }

  /** One iteration of the `forEach`: create the questionnaire on its first
      row, then push the row's item onto it. */
  function AddRow(qs: seq<Questionnaire>, row: JoinRow): seq<Questionnaire> {
    match FindQuestionnaire(qs, row.questionnaireId)
    case Some(i) => qs[i := qs[i].(items := qs[i].items + [RowItem(row)])]
    case None => qs + [Header(row).(items := [RowItem(row)])]
  }

  /** The grouping loop of `getTestDefinition`, over the rows in order;
      `Map` keeps insertion order, so questionnaires come out in order of
      first appearance. */
  function GroupRows(rows: seq<JoinRow>): seq<Questionnaire> {
    if |rows| == 0 then [] else AddRow(GroupRows(rows[..|rows| - 1]), rows[|rows| - 1])
  }

  /** The questionnaire ids the rows mention. */
  function RowIds(rows: seq<JoinRow>): set<int> {
    set r | r in rows :: r.questionnaireId
  }

  /** Reference: the items of the rows for questionnaire `qid`, in row order. */
  function ItemsOf(rows: seq<JoinRow>, qid: int): seq<Item> {
    if |rows| == 0 then []
    else
      var last := rows[|rows| - 1];
      ItemsOf(rows[..|rows| - 1], qid) + (if last.questionnaireId == qid then [RowItem(last)] else [])
  }

  /** The position of the first row for questionnaire `qid`. */
  function FirstIndex(rows: seq<JoinRow>, qid: int): (r: nat)
    requires qid in RowIds(rows)
    ensures r < |rows| && rows[r].questionnaireId == qid
    ensures forall j :: 0 <= j < r ==> rows[j].questionnaireId != qid
  {
    var init := rows[..|rows| - 1];
    assert rows == init + [rows[|rows| - 1]];
    if qid in RowIds(init) then FirstIndex(init, qid) else |rows| - 1
  }

  /** Reference: the questionnaire `qid` as its first row introduces it,
      holding the items of all of its rows. */
  function Expected(rows: seq<JoinRow>, qid: int): Questionnaire
    requires qid in RowIds(rows)
  {
    Header(rows[FirstIndex(rows, qid)]).(items := ItemsOf(rows, qid))
  }

  lemma ItemsOfAbsent(rows: seq<JoinRow>, qid: int)
    requires qid !in RowIds(rows)
    ensures ItemsOf(rows, qid) == []
  {
    if |rows| > 0 {
      assert rows == rows[..|rows| - 1] + [rows[|rows| - 1]];
      ItemsOfAbsent(rows[..|rows| - 1], qid);
    }
  }

  /** The questionnaire ids of a grouping. */
  function IdsOf(qs: seq<Questionnaire>): set<int> {
    set q | q in qs :: q.id
  }

  predicate DistinctIds(qs: seq<Questionnaire>) {
    forall i, j :: 0 <= i < j < |qs| ==> qs[i].id != qs[j].id
  }

  lemma InIdsOf(qs: seq<Questionnaire>, id: int)
    requires id in IdsOf(qs)
    ensures exists k :: 0 <= k < |qs| && qs[k].id == id
  {
    var q :| q in qs && q.id == id;
  }

  /** Adding a row adds its questionnaire id and keeps ids distinct. */
  lemma AddRowIds(g: seq<Questionnaire>, row: JoinRow)
    requires DistinctIds(g)
    ensures DistinctIds(AddRow(g, row))
    ensures IdsOf(AddRow(g, row)) == IdsOf(g) + {row.questionnaireId}
  {
    var r := AddRow(g, row);
    match FindQuestionnaire(g, row.questionnaireId)
    case Some(i) => {
      forall id
        ensures id in IdsOf(r) <==> id in IdsOf(g)
      {
        if id in IdsOf(g) {
          InIdsOf(g, id);
          var k :| 0 <= k < |g| && g[k].id == id;
          assert r[k] in r;
        }
        if id in IdsOf(r) {
          InIdsOf(r, id);
          var k :| 0 <= k < |r| && r[k].id == id;
          assert g[k] in g;
        }
      }
    }
    case None => {
      forall id
        ensures id in IdsOf(r) <==> id in IdsOf(g) + {row.questionnaireId}
      {
        if id in IdsOf(g) {
          InIdsOf(g, id);
          var k :| 0 <= k < |g| && g[k].id == id;
          assert r[k] in r;
        }
        if id == row.questionnaireId {
          assert r[|g|] in r;
        }
        if id in IdsOf(r) {
          InIdsOf(r, id);
          var k :| 0 <= k < |r| && r[k].id == id;
          if k < |g| {
            assert g[k] in g;
          }
        }
      }
    }
  }

  /** The grouping has one questionnaire per distinct questionnaire id. */
  lemma {:induction false} GroupRowsIds(rows: seq<JoinRow>)
    ensures DistinctIds(GroupRows(rows))
    ensures IdsOf(GroupRows(rows)) == RowIds(rows)
  {
    if |rows| > 0 {
      var init := rows[..|rows| - 1];
      var last := rows[|rows| - 1];
      assert rows == init + [last];
      assert RowIds(rows) == RowIds(init) + {last.questionnaireId};
      GroupRowsIds(init);
      AddRowIds(GroupRows(init), last);
    }
  }

  /** Appending a row changes neither the first row of an id already seen nor
      the items of any other id. */
  lemma AppendRowKeeps(init: seq<JoinRow>, last: JoinRow, id: int)
    requires id in RowIds(init)
    ensures id in RowIds(init + [last])
    ensures FirstIndex(init + [last], id) == FirstIndex(init, id)
    ensures (init + [last])[FirstIndex(init, id)] == init[FirstIndex(init, id)]
    ensures id != last.questionnaireId ==> ItemsOf(init + [last], id) == ItemsOf(init, id)
  {
    var rows := init + [last];
    assert rows[..|rows| - 1] == init;
  }

  /** Each questionnaire of the grouping is introduced by the first row of its
      id and holds the items of all of that id's rows, in row order. */
  lemma {:induction false} GroupRowsContents(rows: seq<JoinRow>)
    ensures forall i :: 0 <= i < |GroupRows(rows)| ==>
      GroupRows(rows)[i].id in RowIds(rows) && GroupRows(rows)[i] == Expected(rows, GroupRows(rows)[i].id)
  {
    if |rows| > 0 {
      var init := rows[..|rows| - 1];
      var last := rows[|rows| - 1];
      assert rows == init + [last];
      GroupRowsContents(init);
      GroupRowsIds(init);
      var g := GroupRows(init);
      var r := GroupRows(rows);
      var qid := last.questionnaireId;
      match FindQuestionnaire(g, qid)
      case Some(i) => {
        assert g[i] in g;
        forall k | 0 <= k < |r|
          ensures r[k].id in RowIds(rows) && r[k] == Expected(rows, r[k].id)
        {
          AppendRowKeeps(init, last, g[k].id);
          if k == i {
            assert ItemsOf(rows, qid) == ItemsOf(init, qid) + [RowItem(last)];
          } else {
            assert g[k].id != qid;
          }
        }
      }
      case None => {
        assert qid !in IdsOf(g);
        ItemsOfAbsent(init, qid);
        assert FirstIndex(rows, qid) == |init|;
        forall k | 0 <= k < |r|
          ensures r[k].id in RowIds(rows) && r[k] == Expected(rows, r[k].id)
        {
          if k < |g| {
            assert g[k] in g;
            AppendRowKeeps(init, last, g[k].id);
          } else {
            assert ItemsOf(rows, qid) == [RowItem(last)];
          }
        }
      }
    }
  }

  /** The questionnaires `qs` are in the order their ids first appear in `rows`. */
  predicate InFirstSeenOrder(rows: seq<JoinRow>, qs: seq<Questionnaire>) {
    forall i, j :: 0 <= i < j < |qs| ==>
      qs[i].id in RowIds(rows) && qs[j].id in RowIds(rows) &&
      FirstIndex(rows, qs[i].id) < FirstIndex(rows, qs[j].id)
  }

  lemma AddRowOrder(init: seq<JoinRow>, last: JoinRow)
    requires InFirstSeenOrder(init, GroupRows(init))
    requires IdsOf(GroupRows(init)) == RowIds(init)
    ensures InFirstSeenOrder(init + [last], AddRow(GroupRows(init), last))
  {
    var rows := init + [last];
    var g := GroupRows(init);
    var r := AddRow(g, last);
    var qid := last.questionnaireId;
    assert rows[..|rows| - 1] == init;
    forall k | 0 <= k < |g|
      ensures r[k].id == g[k].id && g[k].id in RowIds(init)
      ensures FirstIndex(rows, r[k].id) == FirstIndex(init, g[k].id)
    {
      assert g[k] in g;
      AppendRowKeeps(init, last, g[k].id);
    }
    match FindQuestionnaire(g, qid)
    case Some(_) =>
      assert |r| == |g|;
    case None =>
      assert qid !in IdsOf(g);
      assert |r| == |g| + 1 && r[|g|].id == qid;
      assert FirstIndex(rows, qid) == |init|;
  }

  /** Questionnaires come out in the order their ids first appear in the rows. */
  lemma {:induction false} GroupRowsOrder(rows: seq<JoinRow>)
    ensures InFirstSeenOrder(rows, GroupRows(rows))
  {
    if |rows| > 0 {
      var init := rows[..|rows| - 1];
      var last := rows[|rows| - 1];
      assert rows == init + [last];
      GroupRowsOrder(init);
      GroupRowsIds(init);
      AddRowOrder(init, last);
    }
  }

  lemma ItemCountUpdate(qs: seq<Questionnaire>, i: nat, q: Questionnaire)
    requires i < |qs|
    ensures ItemCount(qs[i := q]) == ItemCount(qs) - |qs[i].items| + |q.items|
  {
    if i > 0 {
      assert qs[i := q][1..] == qs[1..][i - 1 := q];
      ItemCountUpdate(qs[1..], i - 1, q);
    }
  }

  lemma ItemCountAppend(qs: seq<Questionnaire>, q: Questionnaire)
    ensures ItemCount(qs + [q]) == ItemCount(qs) + |q.items|
  {
    if |qs| > 0 {
      assert (qs + [q])[1..] == qs[1..] + [q];
      ItemCountAppend(qs[1..], q);
    }
  }

  /** Each row adds exactly one item, so the tree holds as many items as there
      are rows, and no questionnaire is left without items. */
  lemma {:induction false} GroupRowsCounts(rows: seq<JoinRow>)
    ensures ItemCount(GroupRows(rows)) == |rows|
    ensures forall q | q in GroupRows(rows) :: |q.items| >= 1
  {
    if |rows| > 0 {
      var init := rows[..|rows| - 1];
      var last := rows[|rows| - 1];
      GroupRowsCounts(init);
      var g := GroupRows(init);
      match FindQuestionnaire(g, last.questionnaireId)
      case Some(i) => {
        ItemCountUpdate(g, i, g[i].(items := g[i].items + [RowItem(last)]));
        assert g[i] in g;
      }
      case None => {
        ItemCountAppend(g, Header(last).(items := [RowItem(last)]));
      }
    }
  }

  /** Row `k` is the first with this id and version. */
  predicate FirstMatch(table: seq<DefinitionRow>, id: string, version: int, k: int) {
    && 0 <= k < |table|
    && table[k].id == id && table[k].version == version
    && forall j :: 0 <= j < k ==> table[j].id != id || table[j].version != version
  }

  /** Row `k` is the first active row. */
  predicate FirstActiveAt(table: seq<DefinitionRow>, k: int) {
    && 0 <= k < |table|
    && table[k].isActive == 1
    && forall j :: 0 <= j < k ==> table[j].isActive != 1
  }

  /** The first row with this id and version (`LIMIT 1`). */
  function FindDefinition(table: seq<DefinitionRow>, id: string, version: int): (r: Option<DefinitionRow>)
    ensures r.None? <==> forall k :: 0 <= k < |table| ==> table[k].id != id || table[k].version != version
    ensures r.Some? ==> exists k :: FirstMatch(table, id, version, k) && table[k] == r.value
  {
    if |table| == 0 then None
    else if table[0].id == id && table[0].version == version then Some(table[0])
    else
      var r := FindDefinition(table[1..], id, version);
      if r.Some? then
        var k :| FirstMatch(table[1..], id, version, k) && table[1..][k] == r.value;
        assert table[k + 1] == r.value;
        assert forall j :: 1 <= j < k + 1 ==> table[j] == table[1..][j - 1];
        assert FirstMatch(table, id, version, k + 1);
        r
      else r
  }

  /** `getTestDefinition(db, id, version)`: null when no definition row
      matches; otherwise the row's fields, its scale and the grouped rows. */
  function GetTestDefinition(table: seq<DefinitionRow>, id: string, version: int, rows: seq<JoinRow>): (r: Option<Definition>)
    ensures r.None? <==> forall k :: 0 <= k < |table| ==> table[k].id != id || table[k].version != version
    ensures r.Some? ==>
      exists k :: FirstMatch(table, id, version, k) &&
        r.value == Definition(id, version, table[k].name, table[k].language, MapScale(table[k]), GroupRows(rows))
  {
    match FindDefinition(table, id, version)
    case None => None
    case Some(d) =>
      Some(Definition(d.id, d.version, d.name, d.language, MapScale(d), GroupRows(rows)))
  }

  /** The first active definition row, the table being in `created_at DESC` order. */
  function FirstActive(table: seq<DefinitionRow>): (r: Option<DefinitionRow>)
    ensures r.None? <==> forall k :: 0 <= k < |table| ==> table[k].isActive != 1
    ensures r.Some? ==> exists k :: FirstActiveAt(table, k) && table[k] == r.value
  {
    if |table| == 0 then None
    else if table[0].isActive == 1 then Some(table[0])
    else
      var r := FirstActive(table[1..]);
      if r.Some? then
        var k :| FirstActiveAt(table[1..], k) && table[1..][k] == r.value;
        assert table[k + 1] == r.value;
        assert forall j :: 1 <= j < k + 1 ==> table[j] == table[1..][j - 1];
        assert FirstActiveAt(table, k + 1);
        r
      else r
  }

  /** `getActiveTestDefinition(db)`: null exactly when no row is active; an
      active row always resolves, since it matches its own id and version. */
  function GetActiveTestDefinition(table: seq<DefinitionRow>, rows: seq<JoinRow>): (r: Option<Definition>)
    ensures r.None? <==> forall k :: 0 <= k < |table| ==> table[k].isActive != 1
    ensures FirstActive(table).Some? ==>
      var a := FirstActive(table).value;
      r == GetTestDefinition(table, a.id, a.version, rows)
    ensures r.Some? ==> exists k :: FirstActiveAt(table, k) && r.value.id == table[k].id && r.value.version == table[k].version
  {
    match FirstActive(table)
    case None => None
    case Some(a) =>
      var r := GetTestDefinition(table, a.id, a.version, rows);
      assert r.Some?;
      r
  }
}
