/**
 Client-side definition shaping: merging the administrator's per-item
 overrides into a definition (`applyOverrides`) and a questionnaire's title.
 */
module Definitions {
  import opened Common
  import opened Domain

  /** `overrides[id]?.text`. */
  function OverrideText(overrides: Overrides, id: int): Option<string> {
    if id in overrides then overrides[id].text else None
  }

  /** `overrides[id]?.isActive`. */
  function OverrideActive(overrides: Overrides, id: int): Option<bool> {
    if id in overrides then overrides[id].isActive else None
  }

  /** One item after overriding: the override's text when it has one, and the
      override's activity when it has one, otherwise active. */
  function OverrideItem(item: Item, overrides: Overrides): Item {
    item.(text := OverrideText(overrides, item.id).GetOr(item.text),
          isActive := OverrideActive(overrides, item.id).GetOr(true))
  }

  function OverrideQuestionnaire(q: Questionnaire, overrides: Overrides): Questionnaire {
    q.(items := seq(|q.items|, k requires 0 <= k < |q.items| => OverrideItem(q.items[k], overrides)))
  }

  /** `applyOverrides(definition, overrides)`: the same definition, the same
      questionnaires with the same items in the same order; only item texts
      and activity flags change. */
  function ApplyOverrides(definition: Definition, overrides: Overrides): (r: Definition)
    ensures r.(questionnaires := definition.questionnaires) == definition
    ensures |r.questionnaires| == |definition.questionnaires|
    ensures forall i :: 0 <= i < |r.questionnaires| ==>
      && r.questionnaires[i].(items := definition.questionnaires[i].items) == definition.questionnaires[i]
      && |r.questionnaires[i].items| == |definition.questionnaires[i].items|
    ensures forall i, k :: 0 <= i < |r.questionnaires| && 0 <= k < |r.questionnaires[i].items| ==>
      var before := definition.questionnaires[i].items[k];
      var after := r.questionnaires[i].items[k];
      && after.id == before.id
      && after.order == before.order
      && (OverrideText(overrides, before.id).Some? ==> after.text == OverrideText(overrides, before.id).value)
      && (OverrideText(overrides, before.id).None? ==> after.text == before.text)
      && (after.isActive <==> OverrideActive(overrides, before.id) != Some(false))
  {
    var qs := definition.questionnaires;
    definition.(questionnaires := seq(|qs|, i requires 0 <= i < |qs| => OverrideQuestionnaire(qs[i], overrides)))
  }

  /** With no overrides every item becomes active and keeps its text, whatever
      its original activity flag was. */
  lemma ApplyNoOverrides(definition: Definition)
    ensures var r := ApplyOverrides(definition, map[]);
      forall i, k :: 0 <= i < |r.questionnaires| && 0 <= k < |r.questionnaires[i].items| ==>
        r.questionnaires[i].items[k].isActive
        && r.questionnaires[i].items[k].text == definition.questionnaires[i].items[k].text
  {
  }

  /** Applying the same overrides twice changes nothing more. */
  lemma ApplyOverridesIdempotent(definition: Definition, overrides: Overrides)
    ensures ApplyOverrides(ApplyOverrides(definition, overrides), overrides) == ApplyOverrides(definition, overrides)
  {
    var once := ApplyOverrides(definition, overrides);
    var twice := ApplyOverrides(once, overrides);
    forall i | 0 <= i < |once.questionnaires|
      ensures twice.questionnaires[i] == once.questionnaires[i]
    {
      assert twice.questionnaires[i].items == once.questionnaires[i].items;
    }
    assert twice.questionnaires == once.questionnaires;
  }

  /** `getQuestionnaireTitle(questionnaire)`: the title, unchanged. */
  function QuestionnaireTitle(q: Questionnaire): (r: string)
    ensures r == q.title
  {
    q.title
  }
}
