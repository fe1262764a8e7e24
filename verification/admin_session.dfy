/**
 The administrator's session detail page: the response map, the totals it
 shows (the stored ones, or a recount over every item), the ranking, the
 chart's maximum score, and what each section and item cell displays.
 */
module AdminSession {
  import opened Common
  import opened Domain
  import Scoring
  import Ranking
  import SessionsTab

  /** One stored response: an item id and its value. */
  datatype Response = Response(itemId: int, value: JsNumber)

  /** No later response is for the same item as `rs[i]`. */
  predicate LastResponseFor(rs: seq<Response>, i: int)
    requires 0 <= i < |rs|
  {
    forall j :: i < j < |rs| ==> rs[j].itemId != rs[i].itemId
  }

  /** `responseMap`: `Map.set` in response order, so the last response for
      an item wins. */
  function ResponseMap(rs: seq<Response>): (r: Answers)
    ensures r.Keys == set x | x in rs :: x.itemId
    ensures forall i :: 0 <= i < |rs| && LastResponseFor(rs, i) ==> r[rs[i].itemId] == rs[i].value
  {
    if |rs| == 0 then map[]
    else
      var init := rs[..|rs| - 1];
      var last := rs[|rs| - 1];
      assert (set x | x in rs :: x.itemId) == (set x | x in init :: x.itemId) + {last.itemId} by {
        assert rs == init + [last];
      }
      assert forall i :: 0 <= i < |init| && LastResponseFor(rs, i) ==>
        LastResponseFor(init, i) && rs[i] == init[i] && rs[i].itemId != last.itemId;
      ResponseMap(init)[last.itemId := last.value]
  }

  /** `toNumber(value)`: the value when it is a finite number, else nothing. */
  function ToNumber(v: Option<JsNumber>): (r: Option<int>)
    ensures r.Some? <==> v.Some? && v.value.Finite?
    ensures r.Some? ==> r.value == v.value.n
  {
    match v
    case Some(Finite(n)) => Some(n)
    case _ => None
  }

  /** The page's own recount: every questionnaire writes the sum of the finite
      responses to all of its items under its eneatype. Unlike the
      respondent's page it applies no overrides. */
  function AdminTally(qs: seq<Questionnaire>, responses: Answers): (r: Totals)
    ensures r.Keys == Scoring.Eneatypes(qs)
    ensures forall i :: 0 <= i < |qs| && Scoring.LastOfEneatype(qs, i) ==>
      r[qs[i].eneatype] == Scoring.SumAnswers(qs[i].items, responses)
  {
    if |qs| == 0 then map[]
    else
      var init := qs[..|qs| - 1];
      var last := qs[|qs| - 1];
      Scoring.DropLast(qs);
      AdminTally(init, responses)[last.eneatype := Scoring.SumAnswers(last.items, responses)]
  }

  /** When no override switches an item off, the recount agrees with the
      respondent's totals. */
  lemma {:induction false} AdminTallyAgreesWithoutDeactivation(qs: seq<Questionnaire>, responses: Answers, overrides: Overrides)
    requires forall id | id in overrides :: overrides[id].isActive != Some(false)
    ensures AdminTally(qs, responses) == Scoring.TotalsOf(qs, responses, overrides)
  {
    if |qs| > 0 {
      var last := qs[|qs| - 1];
      AdminTallyAgreesWithoutDeactivation(qs[..|qs| - 1], responses, overrides);
      Scoring.QuestionnaireTotalIsSumOverActive(last.items, responses, overrides);
      Scoring.ActiveItemsAll(last.items, overrides);
    }
  }

  /** The `totals` of the page: nothing without a definition, the stored totals
      when the result has them, otherwise the recount over the responses. */
  function AdminTotals(definition: Option<Definition>, result: Option<StoredResult>, responses: seq<Response>): (r: Totals)
    ensures definition.None? ==> r == map[]
    ensures definition.Some? && result.Some? && result.value.totals.Some? ==> r == result.value.totals.value
    ensures definition.Some? && !(result.Some? && result.value.totals.Some?) ==>
      var qs := definition.value.questionnaires;
      && r.Keys == Scoring.Eneatypes(qs)
      && forall i :: 0 <= i < |qs| && Scoring.LastOfEneatype(qs, i) ==>
           r[qs[i].eneatype] == Scoring.SumAnswers(qs[i].items, ResponseMap(responses))
  {
    if definition.None? then map[]
    else if result.Some? && result.value.totals.Some? then result.value.totals.value
    else AdminTally(definition.value.questionnaires, ResponseMap(responses))
  }

  /** `maxScore`: 1 for an empty ranking, otherwise the largest score. */
  function MaxScore(ranking: seq<RankEntry>): (r: int)
    ensures |ranking| == 0 ==> r == 1
    ensures |ranking| > 0 ==>
      (exists i :: 0 <= i < |ranking| && ranking[i].score == r) &&
      (forall i :: 0 <= i < |ranking| ==> ranking[i].score <= r)
  {
    if |ranking| == 0 then 1
    else
      var scores := seq(|ranking|, i requires 0 <= i < |ranking| => ranking[i].score);
      var m := SeqMax(scores);
      assert forall i :: 0 <= i < |ranking| ==> ranking[i].score == scores[i];
      m
  }

  /** On a computed ranking the maximum is the first entry's score. */
  lemma MaxScoreIsTopOfRanking(totals: Totals)
    requires |totals| > 0
    ensures MaxScore(Ranking.ComputeRanking(totals)) == Ranking.ComputeRanking(totals)[0].score
  {
    MaxScoreOfSorted(Ranking.ComputeRanking(totals));
  }

  lemma MaxScoreOfSorted(r: seq<RankEntry>)
    requires |r| > 0 && Ranking.StrictlySorted(r)
    ensures MaxScore(r) == r[0].score
  {
    forall i | 0 < i < |r|
      ensures r[i].score <= r[0].score
    {
      assert Ranking.Before(r[0], r[i]);
    }
  }

  /** One questionnaire section: its title and eneatype, the total cell, and
      the score cell of each item (`None` shows as a dash). */
  datatype SectionView = SectionView(title: string, eneatype: int, total: Option<int>, itemScores: seq<Option<int>>)

  datatype AdminView =
    | Loading
    | Failed(message: string)
    | NoData
    | Detail(
        name: string,
        statusLabel: string,
        totals: Totals,
        ranking: seq<RankEntry>,
        maxScore: int,
        storedRanking: seq<RankEntry>,
        sections: seq<SectionView>)

  function Section(q: Questionnaire, totals: Totals, responses: Answers): (r: SectionView)
    ensures r.title == q.title && r.eneatype == q.eneatype
    ensures r.total.Some? <==> q.eneatype in totals
    ensures r.total.Some? ==> r.total.value == totals[q.eneatype]
    ensures |r.itemScores| == |q.items|
    ensures forall k :: 0 <= k < |q.items| ==>
      r.itemScores[k] == ToNumber(if q.items[k].id in responses then Some(responses[q.items[k].id]) else None)
  {
    var items := q.items;
    SectionView(
      q.title, q.eneatype,
      if q.eneatype in totals then Some(totals[q.eneatype]) else None,
      seq(|items|, k requires 0 <= k < |items| =>
        ToNumber(if items[k].id in responses then Some(responses[items[k].id]) else None)))
  }

  /** What the page renders: a loading notice, a non-empty error, a "no data"
      notice without session or definition, otherwise the detail. */
  function View(loading: bool, error: Option<string>, session: Option<Session>, definition: Option<Definition>,
                result: Option<StoredResult>, responses: seq<Response>): (r: AdminView)
    ensures r.Loading? <==> loading
    ensures r.Failed? <==> !loading && error.Some? && error.value != ""
    ensures r.Detail? <==> !loading && (error.None? || error.value == "") && session.Some? && definition.Some?
    ensures r.Detail? ==>
      && r.name == session.value.displayName.GetOr("Usuario")
      && r.statusLabel == SessionsTab.StatusLabel(session.value.status)
      && r.totals == AdminTotals(definition, result, responses)
      && Ranking.StrictlySorted(r.ranking) && Ranking.ListsTotals(r.ranking, r.totals)
      && r.maxScore == MaxScore(r.ranking)
      && |r.sections| == |definition.value.questionnaires|
      && (forall i :: 0 <= i < |r.sections| ==>
            r.sections[i] == Section(definition.value.questionnaires[i], r.totals, ResponseMap(responses)))
      && (result.Some? && result.value.ranking.Some? ==> r.storedRanking == result.value.ranking.value)
      && (result.None? || result.value.ranking.None? ==> r.storedRanking == [])
  {
    if loading then Loading
    else if error.Some? && error.value != "" then Failed(error.value)
    else if session.None? || definition.None? then NoData
    else
      var totals := AdminTotals(definition, result, responses);
      var ranking := Ranking.ComputeRanking(totals);
      var rm := ResponseMap(responses);
      var qs := definition.value.questionnaires;
      Detail(
        session.value.displayName.GetOr("Usuario"),
        SessionsTab.StatusLabel(session.value.status),
        totals,
        ranking,
        MaxScore(ranking),
        if result.Some? && result.value.ranking.Some? then result.value.ranking.value else [],
        seq(|qs|, i requires 0 <= i < |qs| => Section(qs[i], totals, rm)))
  }

  /** Without stored totals every section shows a total: the sum of the
      finite responses over all items of the last questionnaire measuring
      its eneatype. */
  lemma RecountedSectionsShowTotals(session: Session, definition: Definition, result: Option<StoredResult>,
                                    responses: seq<Response>, i: int)
    requires result.None? || result.value.totals.None?
    requires 0 <= i < |definition.questionnaires|
    requires Scoring.LastOfEneatype(definition.questionnaires, i)
    ensures var v := View(false, None, Some(session), Some(definition), result, responses);
      v.Detail? && v.sections[i].total == Some(Scoring.SumAnswers(definition.questionnaires[i].items, ResponseMap(responses)))
  {
    var qs := definition.questionnaires;
    assert qs[i] in qs;
    assert qs[i].eneatype in Scoring.Eneatypes(qs);
  }
}
