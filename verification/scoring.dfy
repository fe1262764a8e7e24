/**
 The respondent-side scoring engine: per-eneatype totals, the number of
 items that still count, and the "all answered" gate that enables submission.
 An item counts unless an override switches it off; an answer counts when it
 is a finite number, otherwise it adds 0.
 */
module Scoring {
  import opened Common
  import opened Domain

  /** What one item adds to its questionnaire's total. */
  function Contribution(item: Item, answers: Answers, overrides: Overrides): int {
    if Deactivated(overrides, item.id) then 0 else AnswerValue(answers, item.id)
  }

  /** The `reduce` over one questionnaire's items in `computeTotals`. */
  function QuestionnaireTotal(items: seq<Item>, answers: Answers, overrides: Overrides): int {
    if |items| == 0 then 0
    else Contribution(items[0], answers, overrides) + QuestionnaireTotal(items[1..], answers, overrides)
  }

  /** The items that are not overridden to inactive, in order. */
  function ActiveItems(items: seq<Item>, overrides: Overrides): (r: seq<Item>)
    ensures |r| <= |items|
    ensures forall it :: it in r <==> it in items && !Deactivated(overrides, it.id)
  {
    if |items| == 0 then []
    else
      (if Deactivated(overrides, items[0].id) then [] else [items[0]])
      + ActiveItems(items[1..], overrides)
  }

  /** Reference sum: the finite answers to the given items, missing ones as 0. */
  function SumAnswers(items: seq<Item>, answers: Answers): int {
    if |items| == 0 then 0 else AnswerValue(answers, items[0].id) + SumAnswers(items[1..], answers)
  }

  /** A questionnaire's total is the plain sum of answers over its active items. */
  lemma {:induction false} QuestionnaireTotalIsSumOverActive(items: seq<Item>, answers: Answers, overrides: Overrides)
    ensures QuestionnaireTotal(items, answers, overrides) == SumAnswers(ActiveItems(items, overrides), answers)
  {
    if |items| > 0 {
      QuestionnaireTotalIsSumOverActive(items[1..], answers, overrides);
      var tail := ActiveItems(items[1..], overrides);
      if !Deactivated(overrides, items[0].id) {
        var act := [items[0]] + tail;
        assert ActiveItems(items, overrides) == act;
        assert act[0] == items[0] && act[1..] == tail;
      } else {
        assert ActiveItems(items, overrides) == tail;
      }
    }
  }

  /** The eneatypes the questionnaires measure. */
  function Eneatypes(qs: seq<Questionnaire>): set<int> {
    set q | q in qs :: q.eneatype
  }

  /** No later questionnaire measures the same eneatype as `qs[i]`. */
  predicate LastOfEneatype(qs: seq<Questionnaire>, i: int)
    requires 0 <= i < |qs|
  {
    forall j :: i < j < |qs| ==> qs[j].eneatype != qs[i].eneatype
  }

  /** The `forEach` of `computeTotals`: questionnaires are visited in order and
      each one writes its total under its eneatype, so a later questionnaire
      with the same eneatype replaces an earlier one. */
  function TotalsOf(qs: seq<Questionnaire>, answers: Answers, overrides: Overrides): (r: Totals)
    ensures r.Keys == Eneatypes(qs)
    ensures forall i :: 0 <= i < |qs| && LastOfEneatype(qs, i) ==>
      r[qs[i].eneatype] == QuestionnaireTotal(qs[i].items, answers, overrides)
  {
    if |qs| == 0 then map[]
    else
      var init := qs[..|qs| - 1];
      var last := qs[|qs| - 1];
      var before := TotalsOf(init, answers, overrides);
      DropLast(qs);
      before[last.eneatype := QuestionnaireTotal(last.items, answers, overrides)]
  }

  /** How the eneatypes and the last-of-eneatype positions of `qs` relate to
      those of `qs` without its last questionnaire. */
  lemma DropLast(qs: seq<Questionnaire>)
    requires |qs| > 0
    ensures var init, last := qs[..|qs| - 1], qs[|qs| - 1];
      && Eneatypes(qs) == Eneatypes(init) + {last.eneatype}
      && (forall i :: 0 <= i < |init| && LastOfEneatype(qs, i) ==>
            LastOfEneatype(init, i) && qs[i] == init[i] && qs[i].eneatype != last.eneatype)
  {
    var init, last := qs[..|qs| - 1], qs[|qs| - 1];
    assert qs == init + [last];
    forall i | 0 <= i < |init| && LastOfEneatype(qs, i)
      ensures LastOfEneatype(init, i) && qs[i] == init[i] && qs[i].eneatype != last.eneatype
    {
      assert qs[|qs| - 1].eneatype != qs[i].eneatype;
    }
  }

  /** `computeTotals(definition, answers, overrides)`: one key per eneatype of
      the definition, holding the total of the last questionnaire measuring it. */
  function ComputeTotals(definition: Definition, answers: Answers, overrides: Overrides): (r: Totals)
    ensures r.Keys == Eneatypes(definition.questionnaires)
    ensures forall i :: 0 <= i < |definition.questionnaires| && LastOfEneatype(definition.questionnaires, i) ==>
      r[definition.questionnaires[i].eneatype]
      == SumAnswers(ActiveItems(definition.questionnaires[i].items, overrides), answers)
  {
    var r := TotalsOf(definition.questionnaires, answers, overrides);
    forall i | 0 <= i < |definition.questionnaires|
      ensures QuestionnaireTotal(definition.questionnaires[i].items, answers, overrides)
           == SumAnswers(ActiveItems(definition.questionnaires[i].items, overrides), answers)
    {
      QuestionnaireTotalIsSumOverActive(definition.questionnaires[i].items, answers, overrides);
    }
    r
  }

  lemma {:induction false} LastIndexExists(qs: seq<Questionnaire>, e: int)
    requires e in Eneatypes(qs)
    ensures exists i :: 0 <= i < |qs| && qs[i].eneatype == e && LastOfEneatype(qs, i)
  {
    var n := |qs| - 1;
    if qs[n].eneatype == e {
      assert LastOfEneatype(qs, n);
    } else {
      var init := qs[..n];
      assert qs == init + [qs[n]];
      assert e in Eneatypes(init);
      LastIndexExists(init, e);
      var i :| 0 <= i < |init| && init[i].eneatype == e && LastOfEneatype(init, i);
      assert qs[i] == init[i];
      assert LastOfEneatype(qs, i);
    }
  }

  lemma {:induction false} QuestionnaireTotalZero(items: seq<Item>, answers: Answers, overrides: Overrides)
    requires forall it | it in items :: Contribution(it, answers, overrides) == 0
    ensures QuestionnaireTotal(items, answers, overrides) == 0
  {
    if |items| > 0 {
      assert items[0] in items;
      QuestionnaireTotalZero(items[1..], answers, overrides);
    }
  }

  /** An eneatype whose items are all switched off or unanswered still gets
      a total, and that total is 0. */
  lemma ZeroTotalWhenNothingCounts(definition: Definition, answers: Answers, overrides: Overrides, e: int)
    requires e in Eneatypes(definition.questionnaires)
    requires forall q, it | q in definition.questionnaires && q.eneatype == e && it in q.items ::
      Deactivated(overrides, it.id) || AnswerValue(answers, it.id) == 0
    ensures e in ComputeTotals(definition, answers, overrides)
    ensures ComputeTotals(definition, answers, overrides)[e] == 0
  {
    var qs := definition.questionnaires;
    LastIndexExists(qs, e);
    var i :| 0 <= i < |qs| && qs[i].eneatype == e && LastOfEneatype(qs, i);
    assert qs[i] in qs;
    QuestionnaireTotalZero(qs[i].items, answers, overrides);
    assert TotalsOf(qs, answers, overrides)[e] == 0;
  }

  lemma {:induction false} QuestionnaireTotalIgnoresDeactivated(items: seq<Item>, answers: Answers, overrides: Overrides, id: int, v: JsNumber)
    requires Deactivated(overrides, id)
    ensures QuestionnaireTotal(items, answers[id := v], overrides) == QuestionnaireTotal(items, answers, overrides)
  {
    if |items| > 0 {
      QuestionnaireTotalIgnoresDeactivated(items[1..], answers, overrides, id, v);
    }
  }

  lemma {:induction false} TotalsIgnoreDeactivated(qs: seq<Questionnaire>, answers: Answers, overrides: Overrides, id: int, v: JsNumber)
    requires Deactivated(overrides, id)
    ensures TotalsOf(qs, answers[id := v], overrides) == TotalsOf(qs, answers, overrides)
  {
    if |qs| > 0 {
      TotalsIgnoreDeactivated(qs[..|qs| - 1], answers, overrides, id, v);
      QuestionnaireTotalIgnoresDeactivated(qs[|qs| - 1].items, answers, overrides, id, v);
    }
  }

  /** Changing the answer to a switched-off item never changes any total. */
  lemma DeactivatedAnswerIrrelevant(definition: Definition, answers: Answers, overrides: Overrides, id: int, v: JsNumber)
    requires Deactivated(overrides, id)
    ensures ComputeTotals(definition, answers[id := v], overrides) == ComputeTotals(definition, answers, overrides)
  {
    TotalsIgnoreDeactivated(definition.questionnaires, answers, overrides, id, v);
  }

  /** With every finite answer on the scale `0..hi`, a questionnaire's total
      lies between 0 and `hi` times its number of active items. */
  lemma {:induction false} QuestionnaireTotalBounded(items: seq<Item>, answers: Answers, overrides: Overrides, hi: int)
    requires 0 <= hi
    requires forall k | k in answers && answers[k].Finite? :: 0 <= answers[k].n <= hi
    ensures 0 <= QuestionnaireTotal(items, answers, overrides) <= hi * |ActiveItems(items, overrides)|
  {
    if |items| > 0 {
      QuestionnaireTotalBounded(items[1..], answers, overrides, hi);
      var rest := |ActiveItems(items[1..], overrides)|;
      var restTotal := QuestionnaireTotal(items[1..], answers, overrides);
      var c := Contribution(items[0], answers, overrides);
      assert 0 <= c <= hi;
      assert QuestionnaireTotal(items, answers, overrides) == c + restTotal;
      if !Deactivated(overrides, items[0].id) {
        assert |ActiveItems(items, overrides)| == 1 + rest;
        MulStep(hi, rest);
      } else {
        assert c == 0;
        assert |ActiveItems(items, overrides)| == rest;
      }
    }
  }

  lemma MulStep(a: int, n: int)
    ensures a * (1 + n) == a + a * n
  {
  }

  /** The number of active items over a list of questionnaires. */
  function ActiveCountOf(qs: seq<Questionnaire>, overrides: Overrides): (r: nat)
    ensures r <= ItemCount(qs)
  {
    if |qs| == 0 then 0
    else |ActiveItems(qs[0].items, overrides)| + ActiveCountOf(qs[1..], overrides)
  }

  /** `getActiveItemCount(definition, overrides)`: never more than the total
      number of items. */
  function ActiveItemCount(definition: Definition, overrides: Overrides): (r: nat)
    ensures r <= ItemCount(definition.questionnaires)
  {
    ActiveCountOf(definition.questionnaires, overrides)
  }

  lemma {:induction false} ActiveItemsAll(items: seq<Item>, overrides: Overrides)
    requires forall id | id in overrides :: overrides[id].isActive != Some(false)
    ensures ActiveItems(items, overrides) == items
  {
    if |items| > 0 {
      ActiveItemsAll(items[1..], overrides);
      assert items == [items[0]] + items[1..];
    }
  }

  lemma {:induction false} ActiveCountAll(qs: seq<Questionnaire>, overrides: Overrides)
    requires forall id | id in overrides :: overrides[id].isActive != Some(false)
    ensures ActiveCountOf(qs, overrides) == ItemCount(qs)
  {
    if |qs| > 0 {
      ActiveItemsAll(qs[0].items, overrides);
      ActiveCountAll(qs[1..], overrides);
    }
  }

  /** Without an override that switches an item off (in particular with no
      overrides at all), every item is active. */
  lemma ActiveCountWithoutDeactivation(definition: Definition, overrides: Overrides)
    requires forall id | id in overrides :: overrides[id].isActive != Some(false)
    ensures ActiveItemCount(definition, overrides) == ItemCount(definition.questionnaires)
  {
    ActiveCountAll(definition.questionnaires, overrides);
  }

  lemma {:induction false} ActiveItemsConcat(a: seq<Item>, b: seq<Item>, overrides: Overrides)
    ensures ActiveItems(a + b, overrides) == ActiveItems(a, overrides) + ActiveItems(b, overrides)
  {
    if |a| > 0 {
      assert (a + b)[1..] == a[1..] + b;
      ActiveItemsConcat(a[1..], b, overrides);
    } else {
      assert a + b == b;
    }
  }

  /** The active count is the length of the active items of all questionnaires. */
  lemma {:induction false} ActiveCountIsActiveOfAll(qs: seq<Questionnaire>, overrides: Overrides)
    ensures ActiveCountOf(qs, overrides) == |ActiveItems(AllItems(qs), overrides)|
  {
    if |qs| > 0 {
      ActiveCountIsActiveOfAll(qs[1..], overrides);
      ActiveItemsConcat(qs[0].items, AllItems(qs[1..]), overrides);
    }
  }

  /** The answer entries the gate counts: finite values for items that are not
      switched off. Keys need not be items of the definition. */
  function AnsweredIds(answers: Answers, overrides: Overrides): set<int> {
    set k | k in answers && answers[k].Finite? && !Deactivated(overrides, k)
  }

  /** The `answeredCount` of `hasAllAnswers`. */
  function AnsweredCount(answers: Answers, overrides: Overrides): nat {
    |AnsweredIds(answers, overrides)|
  }

  /** `hasAllAnswers(definition, answers, overrides)`. */
  predicate HasAllAnswers(definition: Definition, answers: Answers, overrides: Overrides) {
    AnsweredCount(answers, overrides) >= ActiveItemCount(definition, overrides)
  }

  /** With no answers at all the gate is open exactly when nothing is active. */
  lemma HasAllAnswersWithoutAnswers(definition: Definition, overrides: Overrides)
    ensures HasAllAnswers(definition, map[], overrides) <==> ActiveItemCount(definition, overrides) == 0
  {
    assert AnsweredIds(map[], overrides) == {};
  }

  lemma SubsetCard(a: set<int>, b: set<int>)
    requires a <= b
    ensures |a| <= |b|
  {
    assert b == a + (b - a);
    assert a !! (b - a);
  }

  /** Answering one more item that is not switched off never closes the gate. */
  lemma HasAllAnswersMonotone(definition: Definition, answers: Answers, overrides: Overrides, id: int, v: int)
    requires !Deactivated(overrides, id)
    requires HasAllAnswers(definition, answers, overrides)
    ensures HasAllAnswers(definition, answers[id := Finite(v)], overrides)
  {
    var before := AnsweredIds(answers, overrides);
    var after := AnsweredIds(answers[id := Finite(v)], overrides);
    assert before <= after;
    SubsetCard(before, after);
  }

  /** The ids of a list of items. */
  function IdSet(items: seq<Item>): set<int> {
    set it | it in items :: it.id
  }

  /** No two items share an id. */
  predicate DistinctIds(items: seq<Item>) {
    forall i, j :: 0 <= i < j < |items| ==> items[i].id != items[j].id
  }

  lemma HeadIdNotInTail(items: seq<Item>)
    requires |items| > 0
    requires DistinctIds(items)
    ensures items[0].id !in IdSet(items[1..])
    ensures DistinctIds(items[1..])
  {
    forall it | it in items[1..]
      ensures it.id != items[0].id
    {
      var j :| 0 <= j < |items[1..]| && items[1..][j] == it;
      assert items[j + 1] == it;
    }
  }

  lemma IdSetCons(x: Item, t: seq<Item>)
    ensures IdSet([x] + t) == {x.id} + IdSet(t)
  {
    assert forall it :: it in [x] + t <==> it == x || it in t;
  }

  lemma {:induction false} ActiveIdCount(items: seq<Item>, overrides: Overrides)
    requires DistinctIds(items)
    ensures |IdSet(ActiveItems(items, overrides))| == |ActiveItems(items, overrides)|
  {
    if |items| > 0 {
      var tail := ActiveItems(items[1..], overrides);
      HeadIdNotInTail(items);
      ActiveIdCount(items[1..], overrides);
      if !Deactivated(overrides, items[0].id) {
        assert ActiveItems(items, overrides) == [items[0]] + tail;
        IdSetCons(items[0], tail);
        assert IdSet(tail) <= IdSet(items[1..]);
        assert items[0].id !in IdSet(tail);
      } else {
        assert ActiveItems(items, overrides) == tail;
      }
    }
  }

  /** Answering every active item of a definition whose item ids are distinct
      opens the gate. */
  lemma HasAllAnswersWhenEveryActiveItemAnswered(definition: Definition, answers: Answers, overrides: Overrides)
    requires DistinctIds(AllItems(definition.questionnaires))
    requires forall it | it in AllItems(definition.questionnaires) && !Deactivated(overrides, it.id) ::
      it.id in answers && answers[it.id].Finite?
    ensures HasAllAnswers(definition, answers, overrides)
  {
    var all := AllItems(definition.questionnaires);
    var active := ActiveItems(all, overrides);
    ActiveCountIsActiveOfAll(definition.questionnaires, overrides);
    ActiveIdCount(all, overrides);
    assert IdSet(active) <= AnsweredIds(answers, overrides);
    SubsetCard(IdSet(active), AnsweredIds(answers, overrides));
  }
  lemma SubsetFull(a: set<int>, b: set<int>)
    requires a <= b && |a| >= |b|
    ensures a == b
  {
    assert b == a + (b - a);
    assert a !! (b - a);
  }

  /** When ids are distinct and every answer key is the id of an item of the
      definition, the gate opens exactly when every active item has a finite
      answer. */
  lemma HasAllAnswersExactOnItemAnswers(definition: Definition, answers: Answers, overrides: Overrides)
    requires DistinctIds(AllItems(definition.questionnaires))
    requires forall k | k in answers :: k in IdSet(AllItems(definition.questionnaires))
    ensures HasAllAnswers(definition, answers, overrides) <==>
      forall it | it in AllItems(definition.questionnaires) && !Deactivated(overrides, it.id) ::
        it.id in answers && answers[it.id].Finite?
  {
    var all := AllItems(definition.questionnaires);
    var active := ActiveItems(all, overrides);
    var answered := AnsweredIds(answers, overrides);
    if HasAllAnswers(definition, answers, overrides) {
      ActiveCountIsActiveOfAll(definition.questionnaires, overrides);
      ActiveIdCount(all, overrides);
      forall k | k in answered
        ensures k in IdSet(active)
      {
        var it :| it in all && it.id == k;
        assert it in active;
      }
      SubsetFull(answered, IdSet(active));
      forall it | it in all && !Deactivated(overrides, it.id)
        ensures it.id in answers && answers[it.id].Finite?
      {
        assert it in active;
        assert it.id in IdSet(active);
      }
    } else if forall it | it in all && !Deactivated(overrides, it.id) :: it.id in answers && answers[it.id].Finite? {
      HasAllAnswersWhenEveryActiveItemAnswered(definition, answers, overrides);
    }
  }

  /** The gate counts answer entries, not items: with items 1 and 2 active,
      answers to item 1 and to an id 99 that is no item open it although
      item 2 is unanswered. */
  lemma StrayAnswerOpensGate()
    ensures var d := Definition("t", 1, "n", "es", Scale(0, 5, map[]),
                                [Questionnaire(1, 1, "q", 1, [Item(1, 1, "a", true), Item(2, 2, "b", true)])]);
      var answers := map[1 := Finite(3), 99 := Finite(4)];
      && ActiveItemCount(d, map[]) == 2
      && 2 !in answers
      && HasAllAnswers(d, answers, map[])
  {
    var d := Definition("t", 1, "n", "es", Scale(0, 5, map[]),
                        [Questionnaire(1, 1, "q", 1, [Item(1, 1, "a", true), Item(2, 2, "b", true)])]);
    var answers := map[1 := Finite(3), 99 := Finite(4)];
    assert AnsweredIds(answers, map[]) == {1, 99};
  }
}
