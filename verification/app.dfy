/**
 The application shell's state updates: what each administrator action and
 each respondent action does to the lists and answers the shell holds once
 the corresponding server call has succeeded or failed. The calls
 themselves are parameters: a call's outcome is `None` on success and
 `Some(message)` on failure.
 */
module AppState {
  import opened Common
  import opened Domain
  import SessionsTab

  /** The `{ ok, message }` a form receives. */
  datatype Feedback = Feedback(ok: bool, message: string)

  // ---------------------------------------------------------------------
  // Users and sessions

  /** `createUser`: the created user goes to the front of the list. */
  function CreateUser(users: seq<User>, call: Result<User, string>): (r: (seq<User>, Feedback))
    ensures call.Ok? ==> r.0 == [call.value] + users && r.1 == Feedback(true, "Usuario creado.")
    ensures call.Err? ==> r.0 == users && r.1 == Feedback(false, call.error)
  {
    match call
    case Ok(u) => ([u] + users, Feedback(true, "Usuario creado."))
    case Err(m) => (users, Feedback(false, m))
  }

  /** A created session as the server returns it, with its plain token. */
  datatype CreatedSession = CreatedSession(session: Session, token: string)

  /** The link handed to the administrator. */
  function SessionLink(origin: string, token: string): string {
    origin + "/t/" + token
  }

  /** `createSession`: the session goes to the front of the list and its link
      is offered to the clipboard; a failed copy still reports success. The
      third component is the text written to the clipboard. */
  function CreateSession(sessions: seq<Session>, call: Result<CreatedSession, string>, origin: string,
                         copyFailed: bool): (r: (seq<Session>, Feedback, Option<string>))
    ensures call.Err? ==> r == (sessions, Feedback(false, call.error), None)
    ensures call.Ok? ==>
      && r.0 == [call.value.session] + sessions
      && r.1.ok
      && r.1.message == (if copyFailed then "Enlace creado. No se pudo copiar automáticamente." else "Enlace copiado al portapapeles.")
      && r.2 == Some(origin + "/t/" + call.value.token)
  {
    match call
    case Err(m) => (sessions, Feedback(false, m), None)
    case Ok(c) =>
      var link := SessionLink(origin, c.token);
      ([c.session] + sessions,
       if copyFailed then Feedback(true, "Enlace creado. No se pudo copiar automáticamente.")
       else Feedback(true, "Enlace copiado al portapapeles."),
       Some(link))
  }

  /** The local effect of a successful revoke: the sessions with this id
      become REVOKED; nothing else changes. */
  function MarkRevoked(sessions: seq<Session>, id: int): (r: seq<Session>)
    ensures |r| == |sessions|
    ensures forall i :: 0 <= i < |r| ==>
      (sessions[i].id == id ==> r[i] == sessions[i].(status := REVOKED)) &&
      (sessions[i].id != id ==> r[i] == sessions[i])
  {
    seq(|sessions|, i requires 0 <= i < |sessions| =>
      if sessions[i].id == id then sessions[i].(status := REVOKED) else sessions[i])
  }

  /** The local effect of a successful reset: the sessions with this id go
      back to CREATED with no start, completion or revocation time. */
  function MarkReset(sessions: seq<Session>, id: int): (r: seq<Session>)
    ensures |r| == |sessions|
    ensures forall i :: 0 <= i < |r| ==>
      (sessions[i].id == id ==>
         r[i] == sessions[i].(status := CREATED, startedAt := None, completedAt := None, revokedAt := None)) &&
      (sessions[i].id != id ==> r[i] == sessions[i])
  {
    seq(|sessions|, i requires 0 <= i < |sessions| =>
      if sessions[i].id == id
      then sessions[i].(status := CREATED, startedAt := None, completedAt := None, revokedAt := None)
      else sessions[i])
  }

  /** The administrator panel's lists and error line. */
  datatype AdminState = AdminState(users: seq<User>, sessions: seq<Session>, test: Option<Definition>, error: string)

  /** `handleRevokeSession`: on success mark the session, on failure show the
      message and leave the list alone. */
  function HandleRevoke(s: AdminState, id: int, failure: Option<string>): (r: AdminState)
    ensures failure.None? ==> r == s.(sessions := MarkRevoked(s.sessions, id))
    ensures failure.Some? ==> r == s.(error := failure.value)
  {
    if failure.None? then s.(sessions := MarkRevoked(s.sessions, id)) else s.(error := failure.value)
  }

  /** `handleResetSession`. */
  function HandleReset(s: AdminState, id: int, failure: Option<string>): (r: AdminState)
    ensures failure.None? ==> r == s.(sessions := MarkReset(s.sessions, id))
    ensures failure.Some? ==> r == s.(error := failure.value)
  {
    if failure.None? then s.(sessions := MarkReset(s.sessions, id)) else s.(error := failure.value)
  }

  /** After a revoke the row offers no action; revoking twice is revoking once. */
  lemma RevokeClosesRow(sessions: seq<Session>, id: int)
    ensures forall i :: 0 <= i < |sessions| && sessions[i].id == id ==>
      !SessionsTab.CanRevoke(MarkRevoked(sessions, id)[i]) && !SessionsTab.CanReset(MarkRevoked(sessions, id)[i])
    ensures MarkRevoked(MarkRevoked(sessions, id), id) == MarkRevoked(sessions, id)
  {
  }

  /** A reset session can be revoked again and can no longer be reset, and
      a reset keeps the creation time and owner. */
  lemma ResetReopensRow(sessions: seq<Session>, id: int)
    ensures forall i :: 0 <= i < |sessions| && sessions[i].id == id ==>
      var s := MarkReset(sessions, id)[i];
      && SessionsTab.CanRevoke(s) && !SessionsTab.CanReset(s)
      && s.createdAt == sessions[i].createdAt && s.userId == sessions[i].userId
  {
  }

  // ---------------------------------------------------------------------
  // Item edits

  function UpdateItemIn(q: Questionnaire, updated: Item): Questionnaire {
    q.(items := seq(|q.items|, k requires 0 <= k < |q.items| =>
      if q.items[k].id == updated.id then q.items[k].(text := updated.text, isActive := updated.isActive)
      else q.items[k]))
  }

  /** `handleUpdateItem`'s state update: the items with the updated item's id
      take its text and activity; everything else, including the shape of
      the definition, is unchanged; no definition stays no definition. */
  function UpdateItem(test: Option<Definition>, updated: Item): (r: Option<Definition>)
    ensures test.None? ==> r.None?
    ensures test.Some? ==>
      && r.Some?
      && r.value.(questionnaires := test.value.questionnaires) == test.value
      && |r.value.questionnaires| == |test.value.questionnaires|
      && forall i :: 0 <= i < |r.value.questionnaires| ==>
           var before := test.value.questionnaires[i];
           var after := r.value.questionnaires[i];
           && after.(items := before.items) == before
           && |after.items| == |before.items|
           && forall k :: 0 <= k < |after.items| ==>
                (before.items[k].id == updated.id ==>
                   after.items[k] == before.items[k].(text := updated.text, isActive := updated.isActive))
                && (before.items[k].id != updated.id ==> after.items[k] == before.items[k])
  {
    match test
    case None => None
    case Some(d) =>
      var qs := d.questionnaires;
      Some(d.(questionnaires := seq(|qs|, i requires 0 <= i < |qs| => UpdateItemIn(qs[i], updated))))
  }

  /** `handleUpdateItem`: a successful call applies the returned item to the
      definition; a failed one shows its message and leaves the definition
      (and everything else) alone. */
  function HandleUpdateItem(s: AdminState, call: Result<Item, string>): (r: AdminState)
    ensures call.Ok? ==> r == s.(test := UpdateItem(s.test, call.value))
    ensures call.Err? ==> r == s.(error := call.error)
    ensures r.users == s.users && r.sessions == s.sessions
  {
    match call
    case Ok(updated) => s.(test := UpdateItem(s.test, updated))
    case Err(m) => s.(error := m)
  }

  /** Applying the same update twice is applying it once. */
  lemma UpdateItemIdempotent(test: Option<Definition>, updated: Item)
    ensures UpdateItem(UpdateItem(test, updated), updated) == UpdateItem(test, updated)
  {
    if test.Some? {
      var once := UpdateItem(test, updated).value;
      var twice := UpdateItem(UpdateItem(test, updated), updated).value;
      forall i | 0 <= i < |once.questionnaires|
        ensures twice.questionnaires[i] == once.questionnaires[i]
      {
        assert twice.questionnaires[i].items == once.questionnaires[i].items;
      }
      assert twice.questionnaires == once.questionnaires;
    }
  }

  /** Updates of two different items commute. */
  lemma UpdatesCommute(test: Option<Definition>, a: Item, b: Item)
    requires a.id != b.id
    ensures UpdateItem(UpdateItem(test, a), b) == UpdateItem(UpdateItem(test, b), a)
  {
    if test.Some? {
      var ab := UpdateItem(UpdateItem(test, a), b).value;
      var ba := UpdateItem(UpdateItem(test, b), a).value;
      forall i | 0 <= i < |ab.questionnaires|
        ensures ab.questionnaires[i] == ba.questionnaires[i]
      {
        assert ab.questionnaires[i].items == ba.questionnaires[i].items;
      }
      assert ab.questionnaires == ba.questionnaires;
    }
  }

  // ---------------------------------------------------------------------
  // The respondent's answers

  /** The respondent page's session, answers and error line. */
  datatype PublicState = PublicState(session: Option<PublicSession>, answers: Answers, error: string)

  /** `handleAnswerChange(itemId, value)` with `Number(value)` already taken:
      the answer is recorded; a CREATED session is started, and becomes
      STARTED when the start call succeeds or shows the error when it fails. */
  function AnswerChange(s: PublicState, itemId: int, parsed: JsNumber, startFailure: Option<string>): (r: PublicState)
    ensures r.answers == s.answers[itemId := parsed]
    ensures (s.session.None? || s.session.value.status != CREATED) ==> r.session == s.session && r.error == s.error
    ensures s.session.Some? && s.session.value.status == CREATED && startFailure.None? ==>
      r.session == Some(s.session.value.(status := STARTED)) && r.error == s.error
    ensures s.session.Some? && s.session.value.status == CREATED && startFailure.Some? ==>
      r.session == s.session && r.error == startFailure.value
  {
    var answers := s.answers[itemId := parsed];
    if s.session.Some? && s.session.value.status == CREATED then
      if startFailure.None? then PublicState(Some(s.session.value.(status := STARTED)), answers, s.error)
      else PublicState(s.session, answers, startFailure.value)
    else PublicState(s.session, answers, s.error)
  }

  /** Answering changes only the answered item's entry, and the status only
      moves from CREATED to STARTED. */
  lemma AnswerChangeFrame(s: PublicState, itemId: int, parsed: JsNumber, startFailure: Option<string>)
    ensures var r := AnswerChange(s, itemId, parsed, startFailure);
      && r.answers.Keys == s.answers.Keys + {itemId}
      && (forall k | k in s.answers && k != itemId :: r.answers[k] == s.answers[k])
      && (r.session.Some? <==> s.session.Some?)
      && (r.session.Some? && r.session.value.status != s.session.value.status ==>
            s.session.value.status == CREATED && r.session.value.status == STARTED)
  {
  }

  /** One entry of the submitted payload. */
  datatype AnswerEntry = AnswerEntry(itemId: int, value: JsNumber)

  /** `handleSubmit`'s payload: one entry per answer, in `Object.entries`
      order, which for non-negative integer keys is ascending. */
  function SubmitPayload(answers: Answers): (r: seq<AnswerEntry>)
    ensures |r| == |answers|
    ensures forall i :: 0 <= i < |r| ==> r[i].itemId in answers && r[i].value == answers[r[i].itemId]
    ensures forall k | k in answers :: exists i :: 0 <= i < |r| && r[i].itemId == k
    ensures forall i, j :: 0 <= i < j < |r| ==> r[i].itemId < r[j].itemId
  {
    var keys := SortedKeys(answers.Keys);
    EntriesCover(keys, answers);
    EntriesFor(keys, answers)
  }

  function EntriesFor(keys: seq<int>, answers: Answers): (r: seq<AnswerEntry>)
    requires forall i :: 0 <= i < |keys| ==> keys[i] in answers
    ensures |r| == |keys|
    ensures forall i :: 0 <= i < |r| ==> r[i] == AnswerEntry(keys[i], answers[keys[i]])
  {
    seq(|keys|, i requires 0 <= i < |keys| => AnswerEntry(keys[i], answers[keys[i]]))
  }

  /** The entries built from an ascending listing of all keys carry each
      answer once, in ascending item id. */
  lemma EntriesCover(keys: seq<int>, answers: Answers)
    requires |keys| == |answers.Keys|
    requires forall i :: 0 <= i < |keys| ==> keys[i] in answers
    requires forall x | x in answers :: x in keys
    requires forall i, j :: 0 <= i < j < |keys| ==> keys[i] < keys[j]
    ensures var r := EntriesFor(keys, answers);
      && |r| == |answers|
      && (forall i :: 0 <= i < |r| ==> r[i].itemId in answers && r[i].value == answers[r[i].itemId])
      && (forall k | k in answers :: exists i :: 0 <= i < |r| && r[i].itemId == k)
      && (forall i, j :: 0 <= i < j < |r| ==> r[i].itemId < r[j].itemId)
  {
    var r := EntriesFor(keys, answers);
    MapCardIsKeysCard(answers);
    forall k | k in answers
      ensures exists i :: 0 <= i < |r| && r[i].itemId == k
    {
      var i :| 0 <= i < |keys| && keys[i] == k;
      assert r[i].itemId == k;
    }
  }

  /** The answers a payload carries, later entries winning. */
  function PayloadAnswers(entries: seq<AnswerEntry>): Answers {
    if |entries| == 0 then map[]
    else PayloadAnswers(entries[..|entries| - 1])[entries[|entries| - 1].itemId := entries[|entries| - 1].value]
  }

  /** Reading back the entries built from `keys` gives the answers to
      exactly those keys. */
  lemma {:induction false} PayloadOfEntries(keys: seq<int>, answers: Answers)
    requires forall i :: 0 <= i < |keys| ==> keys[i] in answers
    ensures PayloadAnswers(EntriesFor(keys, answers)) == map k | k in keys :: answers[k]
  {
    if |keys| > 0 {
      var init := keys[..|keys| - 1];
      var entries := EntriesFor(keys, answers);
      assert entries[..|entries| - 1] == EntriesFor(init, answers);
      PayloadOfEntries(init, answers);
      assert forall k :: k in keys <==> k in init || k == keys[|keys| - 1] by {
        assert keys == init + [keys[|keys| - 1]];
      }
    }
  }

  /** The payload carries exactly the answers: reading it back gives the map. */
  lemma SubmitPayloadRoundTrip(answers: Answers)
    ensures PayloadAnswers(SubmitPayload(answers)) == answers
  {
    var keys := SortedKeys(answers.Keys);
    assert SubmitPayload(answers) == EntriesFor(keys, answers);
    PayloadOfEntries(keys, answers);
    MapOfAllKeys(keys, answers);
  }

  lemma MapOfAllKeys(keys: seq<int>, answers: Answers)
    requires forall i :: 0 <= i < |keys| ==> keys[i] in answers
    requires forall x | x in answers :: x in keys
    ensures (map k | k in keys :: answers[k]) == answers
  {
    var m := map k | k in keys :: answers[k];
    assert forall k | k in answers :: k in m && m[k] == answers[k];
  }
}
