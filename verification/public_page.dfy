/**
 The respondent's page: which view a token's session selects, and for the
 answer form the progress counter, the items shown, the checked choices
 and whether submitting is allowed.
 */
module PublicPage {
  import opened Common
  import opened Domain
  import Scoring
  import Ranking
  import Definitions
  import ScaleChoices

  /** One stored answer set: the session it belongs to and its answers. */
  datatype ResponseEntry = ResponseEntry(sessionId: int, answers: Answers)

  /** An item on the form: its id, its text, and for each scale choice
      whether that choice's radio button is checked. */
  datatype FormItem = FormItem(id: int, text: string, checked: seq<bool>)

  datatype FormSection = FormSection(title: string, eneatype: int, items: seq<FormItem>)

  datatype PageView =
    | InvalidLink
    | Revoked
    | Results(totals: seq<RankEntry>, ranking: seq<RankEntry>)
    | Form(
        name: string,
        scaleMin: int,
        scaleMax: int,
        answered: nat,
        required: int,
        choices: seq<ScaleChoices.Choice>,
        sections: seq<FormSection>,
        submitEnabled: bool)

  /** `responses.find(entry => entry.sessionId === id)?.answers`. */
  function FindAnswers(responses: seq<ResponseEntry>, id: int): (r: Option<Answers>)
    ensures r.None? <==> forall j :: 0 <= j < |responses| ==> responses[j].sessionId != id
    ensures r.Some? ==>
      exists j :: 0 <= j < |responses| && responses[j].sessionId == id &&
        r.value == responses[j].answers &&
        forall k :: 0 <= k < j ==> responses[k].sessionId != id
  {
    if |responses| == 0 then None
    else if responses[0].sessionId == id then Some(responses[0].answers)
    else
      var r := FindAnswers(responses[1..], id);
      assert forall j :: 1 <= j < |responses| ==> responses[j] == responses[1..][j - 1];
      if r.Some? then
        ghost var j :| 0 <= j < |responses[1..]| && responses[1..][j].sessionId == id
          && r.value == responses[1..][j].answers
          && forall k :: 0 <= k < j ==> responses[1..][k].sessionId != id;
        assert responses[j + 1].sessionId == id && r.value == responses[j + 1].answers;
        r
      else r
  }

  /** The items with `isActive` set, in order. */
  function ActiveOnly(items: seq<Item>): (r: seq<Item>)
    ensures |r| <= |items|
    ensures forall it :: it in r <==> it in items && it.isActive
  {
    if |items| == 0 then []
    else (if items[0].isActive then [items[0]] else []) + ActiveOnly(items[1..])
  }

  function FormItemOf(item: Item, answers: Answers, choices: seq<ScaleChoices.Choice>): (r: FormItem)
    ensures r.id == item.id && r.text == item.text && |r.checked| == |choices|
    ensures forall j :: 0 <= j < |choices| ==>
      (r.checked[j] <==> item.id in answers && answers[item.id] == Finite(choices[j].value))
  {
    FormItem(item.id, item.text, seq(|choices|, j requires 0 <= j < |choices| =>
      item.id in answers && answers[item.id] == Finite(choices[j].value)))
  }

  /** One questionnaire on the form: its title and only its active items. */
  function SectionOf(q: Questionnaire, answers: Answers, choices: seq<ScaleChoices.Choice>): (r: FormSection)
    ensures r.title == Definitions.QuestionnaireTitle(q) && r.eneatype == q.eneatype
    ensures |r.items| == |ActiveOnly(q.items)|
    ensures forall k :: 0 <= k < |r.items| ==> r.items[k] == FormItemOf(ActiveOnly(q.items)[k], answers, choices)
  {
    var shown := ActiveOnly(q.items);
    FormSection(Definitions.QuestionnaireTitle(q), q.eneatype,
      seq(|shown|, k requires 0 <= k < |shown| => FormItemOf(shown[k], answers, choices)))
  }

  function Sections(qs: seq<Questionnaire>, answers: Answers, choices: seq<ScaleChoices.Choice>): (r: seq<FormSection>)
    ensures |r| == |qs|
    ensures forall i :: 0 <= i < |qs| ==> r[i] == SectionOf(qs[i], answers, choices)
  {
    seq(|qs|, i requires 0 <= i < |qs| => SectionOf(qs[i], answers, choices))
  }

  /** `PublicTestPage`: an unknown token shows the invalid-link notice before
      anything else is looked at; a revoked session the revoked notice; a
      completed one its stored totals (in `Object.entries` order) and
      ranking, empty when missing; any other status the answer form, whose
      counter counts the finite answers to ids not switched off and whose
      submit button is enabled when that count reaches the active count.
      Answers under ids that are no item count too, so the button can be
      enabled with an active item unanswered (`Scoring.StrayAnswerOpensGate`). */
  function View(token: string, definition: Definition, sessionsByToken: map<string, PublicSession>,
                responses: seq<ResponseEntry>, overrides: Overrides, activeItemCount: int,
                bundledScale: Scale): (r: PageView)
    ensures r.InvalidLink? <==> token !in sessionsByToken
    ensures r.Revoked? <==> token in sessionsByToken && sessionsByToken[token].status == REVOKED
    ensures r.Results? <==> token in sessionsByToken && sessionsByToken[token].status == COMPLETED
    ensures r.Results? ==>
      var result := sessionsByToken[token].result;
      && (result.Some? && result.value.totals.Some? ==> r.totals == Ranking.Entries(result.value.totals.value))
      && (result.None? || result.value.totals.None? ==> r.totals == [])
      && (result.Some? && result.value.ranking.Some? ==> r.ranking == result.value.ranking.value)
      && (result.None? || result.value.ranking.None? ==> r.ranking == [])
    ensures r.Form? ==>
      var answers := FindAnswers(responses, sessionsByToken[token].id).GetOr(map[]);
      && r.name == definition.name
      && r.scaleMin == definition.scale.min && r.scaleMax == definition.scale.max
      && r.answered == Scoring.AnsweredCount(answers, overrides)
      && r.required == activeItemCount
      && r.choices == ScaleChoices.DefaultScale(bundledScale)
      && r.sections == Sections(definition.questionnaires, answers, r.choices)
      && (r.submitEnabled <==> Scoring.HasAllAnswers(definition, answers, overrides))
  {
    if token !in sessionsByToken then InvalidLink
    else
      var session := sessionsByToken[token];
      var answers := FindAnswers(responses, session.id).GetOr(map[]);
      if session.status == REVOKED then Revoked
      else if session.status == COMPLETED then
        var result := session.result;
        Results(
          if result.Some? && result.value.totals.Some? then Ranking.Entries(result.value.totals.value) else [],
          if result.Some? && result.value.ranking.Some? then result.value.ranking.value else [])
      else
        var choices := ScaleChoices.DefaultScale(bundledScale);
        Form(definition.name, definition.scale.min, definition.scale.max,
             Scoring.AnsweredCount(answers, overrides), activeItemCount, choices,
             Sections(definition.questionnaires, answers, choices),
             Scoring.HasAllAnswers(definition, answers, overrides))
  }

  /** The number of items a form shows. */
  function ShownCount(sections: seq<FormSection>): nat {
    if |sections| == 0 then 0 else |sections[0].items| + ShownCount(sections[1..])
  }

  /** Every item's activity flag says whether the overrides leave it on, as
      `applyOverrides` makes it. */
  predicate FlagsFollowOverrides(qs: seq<Questionnaire>, overrides: Overrides) {
    forall i, k :: 0 <= i < |qs| && 0 <= k < |qs[i].items| ==>
      (qs[i].items[k].isActive <==> !Deactivated(overrides, qs[i].items[k].id))
  }

  lemma {:induction false} ActiveOnlyIsActiveItems(items: seq<Item>, overrides: Overrides)
    requires forall k :: 0 <= k < |items| ==> (items[k].isActive <==> !Deactivated(overrides, items[k].id))
    ensures ActiveOnly(items) == Scoring.ActiveItems(items, overrides)
  {
    if |items| > 0 {
      ActiveOnlyIsActiveItems(items[1..], overrides);
    }
  }

  lemma {:induction false} ShownCountIsActiveCount(qs: seq<Questionnaire>, overrides: Overrides, answers: Answers,
                                                   choices: seq<ScaleChoices.Choice>)
    requires FlagsFollowOverrides(qs, overrides)
    ensures ShownCount(Sections(qs, answers, choices)) == Scoring.ActiveCountOf(qs, overrides)
  {
    if |qs| > 0 {
      var secs := Sections(qs, answers, choices);
      assert secs[1..] == Sections(qs[1..], answers, choices);
      assert FlagsFollowOverrides(qs[1..], overrides) by {
        forall i, k | 0 <= i < |qs[1..]| && 0 <= k < |qs[1..][i].items|
          ensures qs[1..][i].items[k].isActive <==> !Deactivated(overrides, qs[1..][i].items[k].id)
        {
          assert qs[1..][i] == qs[i + 1];
        }
      }
      ShownCountIsActiveCount(qs[1..], overrides, answers, choices);
      ActiveOnlyIsActiveItems(qs[0].items, overrides);
    }
  }

  /** On a definition with the overrides applied, the form shows exactly as
      many items as the submit gate requires answers for, so the button is
      enabled exactly when the counter has reached the number of items shown. */
  lemma SubmitGateMatchesShownItems(token: string, raw: Definition, sessionsByToken: map<string, PublicSession>,
                                    responses: seq<ResponseEntry>, overrides: Overrides, bundledScale: Scale)
    ensures var definition := Definitions.ApplyOverrides(raw, overrides);
      var v := View(token, definition, sessionsByToken, responses, overrides,
                    Scoring.ActiveItemCount(definition, overrides), bundledScale);
      v.Form? ==>
        && ShownCount(v.sections) == v.required
        && (v.submitEnabled <==> v.answered >= ShownCount(v.sections))
  {
    var definition := Definitions.ApplyOverrides(raw, overrides);
    var v := View(token, definition, sessionsByToken, responses, overrides,
                  Scoring.ActiveItemCount(definition, overrides), bundledScale);
    if v.Form? {
      var answers := FindAnswers(responses, sessionsByToken[token].id).GetOr(map[]);
      ShownCountIsActiveCount(definition.questionnaires, overrides, answers, v.choices);
    }
  }

  /** At most one radio button of a shown item is checked, because the
      scale's values are distinct. */
  lemma AtMostOneChecked(item: Item, answers: Answers, scale: Scale, j1: int, j2: int)
    requires 0 <= j1 < j2 < |ScaleChoices.DefaultScale(scale)|
    ensures var f := FormItemOf(item, answers, ScaleChoices.DefaultScale(scale));
      !(f.checked[j1] && f.checked[j2])
  {
    ScaleChoices.DefaultScaleAscending(scale, j1, j2);
  }

  /** An item answered with a value of the scale has exactly that choice
      checked. */
  lemma AnsweredValueIsChecked(item: Item, answers: Answers, scale: Scale)
    requires item.id in answers && answers[item.id].Finite?
    requires scale.min <= answers[item.id].n <= scale.max
    ensures var f := FormItemOf(item, answers, ScaleChoices.DefaultScale(scale));
      f.checked[answers[item.id].n - scale.min]
  {
    ScaleChoices.DefaultScaleCovers(scale, answers[item.id].n);
  }
}
