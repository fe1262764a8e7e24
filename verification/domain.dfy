/**
 The records the questionnaire application passes around: a test
 definition with its questionnaires and items, the administrator's
 per-item overrides, the respondent's answers, stored results and sessions.
 */
module Domain {
  import opened Common

  /** A JavaScript number as the scoring code sees it: a finite integer, or a
      value `Number.isFinite` rejects (NaN, an infinity, a non-number). */
  datatype JsNumber = Finite(n: int) | NonFinite

  /** The respondent's `answers` object: item id to the chosen value. */
  type Answers = map<int, JsNumber>

  /** An administrator's correction of one item; `None` means the field is
      not overridden (`null` or absent). */
  datatype Override = Override(text: Option<string>, isActive: Option<bool>)

  /** Overrides keyed by item id. */
  type Overrides = map<int, Override>

  datatype Item = Item(id: int, order: int, text: string, isActive: bool)

  datatype Questionnaire = Questionnaire(
    id: int,
    eneatype: int,
    title: string,
    order: int,
    items: seq<Item>)

  /** The answer scale: inclusive bounds and labels keyed by the decimal
      string of a value. */
  datatype Scale = Scale(min: int, max: int, labels: map<string, string>)

  datatype Definition = Definition(
    id: string,
    version: int,
    name: string,
    language: string,
    scale: Scale,
    questionnaires: seq<Questionnaire>)

  /** One line of a ranking: an eneatype and its total score. */
  datatype RankEntry = RankEntry(eneatype: int, score: int)

  /** Per-eneatype totals, the `totals` object. */
  type Totals = map<int, int>

  /** A persisted session result; either part may be missing from the
      stored JSON. */
  datatype StoredResult = StoredResult(totals: Option<Totals>, ranking: Option<seq<RankEntry>>)

  /** A respondent account as the administrator's list holds it. */
  datatype User = User(id: int, externalId: string, displayName: string, email: Option<string>, createdAt: int)

  /** A session as the administrator's list holds it. Timestamps are
      integers (milliseconds); `None` is `null`. */
  datatype Session = Session(
    id: int,
    userId: int,
    status: string,
    createdAt: int,
    startedAt: Option<int>,
    completedAt: Option<int>,
    revokedAt: Option<int>,
    displayName: Option<string>)

  /** A session as the respondent's page sees it. */
  datatype PublicSession = PublicSession(id: int, status: string, result: Option<StoredResult>)

  const CREATED := "CREATED"
  const STARTED := "STARTED"
  const COMPLETED := "COMPLETED"
  const REVOKED := "REVOKED"

  /** `overrides[id]?.isActive === false`: the administrator switched the
      item off. */
  predicate Deactivated(overrides: Overrides, id: int) {
    id in overrides && overrides[id].isActive == Some(false)
  }

  /** The value an answer adds to a sum: the answer when it is a finite
      number, otherwise 0. */
  function AnswerValue(answers: Answers, id: int): int {
    if id in answers && answers[id].Finite? then answers[id].n else 0
  }

  /** All items of all questionnaires, in order. */
  function AllItems(qs: seq<Questionnaire>): (r: seq<Item>)
    ensures forall q, it :: q in qs && it in q.items ==> it in r
  {
    if |qs| == 0 then [] else qs[0].items + AllItems(qs[1..])
  }

  /** The total number of items over all questionnaires. */
  function ItemCount(qs: seq<Questionnaire>): nat {
    if |qs| == 0 then 0 else |qs[0].items| + ItemCount(qs[1..])
  }
}
