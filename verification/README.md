# Eneagram questionnaire: a Dafny model of its functional core

The system administers a nine-part enneagram questionnaire. An
administrator creates respondent accounts and one-time session links. A
respondent answers every active item on a numeric scale. The answers are
summed per eneatype and ranked. This project models the deterministic logic
inside the web client, the server helpers and the definition loader script.
It uses immutable datatypes and pure functions, and proves what each step
promises.

Modules, one per source component:

- `Common`, `Domain`, `Text`: option/result wrappers and the shared records. `Text` holds the JavaScript string operations the code relies on: `trim`, `startsWith`, first-occurrence `replace`, and `String(n)` for integers.
- `Scoring`, `Ranking`: per-eneatype totals, active-item count, the "all answered" gate, and the ranking order.
- `Definitions`: administrator overrides merged into a definition.
- `ServerDefinition`: joined database rows grouped into the questionnaire → item tree, and the null results of the two definition lookups.
- `AdminSession`: the administrator's session detail page.
- `SessionsTab`: the administrator's session list.
- `PublicPage`: the respondent page.
- `AppState`: the application shell's state updates after each server call.
- `Token`: session tokens and their stored hash, in lowercase base16 (section 8 of RFC 4648). SHA-256 is a parameter.
- `UsersApi`: the user endpoint, as an operation on a list of accounts.
- `Loader`: the loader script: options, validation, SQL quote escaping, the statement list, and version selection.
- `ScaleChoices`, `Router`, `Ids`: the scale's choice list, hash routing, and fresh ids.

JavaScript values are modelled explicitly:

- A number is `Finite(n)` or `NonFinite`, so `Number.isFinite` is `Finite?`.
- Object keys that are item ids or eneatypes are integers. `Object.entries` lists non-negative integer (array-index) keys in ascending order, and the model uses that order for every key.
- `Array.prototype.sort` is stable (ES2019), so it is modelled as an insertion sort.
- Database queries, `JSON.parse`, the clock, the random source and SHA-256 become inputs.

Two behaviours of the code worth knowing, both modelled as written:

- An item's stored `isActive = false` does not keep it out of scoring. The respondent's scoring consults only the administrator's override map, and the administrator's recount scores every item.
- A stored definition version is not left untouched by a later load. The loader's definition update (`UPDATE test_definition SET ..., version = ..., ... WHERE id = ...`) rewrites every stored row of the id, version column included. The model keeps the statement as written and does not evaluate it.

## Model

| member | source | states |
|---|---|---|
| `Scoring.ComputeTotals` | src/utils/scoring.js:1-13 | exactly one key per distinct eneatype; the value is the sum over the last questionnaire with that eneatype, skipping items overridden to inactive, with a missing or non-finite answer adding 0 |
| `Scoring.QuestionnaireTotalIsSumOverActive` | src/utils/scoring.js:4-9 | a questionnaire's running total equals the plain sum of answers over its items not switched off |
| `Scoring.ZeroTotalWhenNothingCounts` | src/utils/scoring.js:3-11 | an eneatype whose items are all switched off or unanswered still gets the key, with value 0 |
| `Scoring.DeactivatedAnswerIrrelevant` | src/utils/scoring.js:5-6 | changing the answer to a switched-off item changes no total |
| `Scoring.QuestionnaireTotalBounded` | src/utils/scoring.js:4-9 | with answers in 0..hi a total lies between 0 and hi times the number of active items |
| `Scoring.LastIndexExists` | src/utils/scoring.js:10 | every key of the totals comes from a questionnaire that is the last one with that eneatype |
| `Scoring.ActiveItemCount` | src/utils/scoring.js:24-28 | the active-item count never exceeds the number of items |
| `Scoring.ActiveCountWithoutDeactivation` | src/utils/scoring.js:24-28 | with no override switching an item off, the active count is the total item count |
| `Scoring.ActiveCountIsActiveOfAll` | src/utils/scoring.js:24-28 | summing per questionnaire counts the same items as filtering all items at once |
| `Scoring.ActiveItemsConcat` | src/utils/scoring.js:26 | the activity filter distributes over concatenation |
| `Scoring.HasAllAnswersWithoutAnswers` | src/utils/scoring.js:30-38 | with no answers the gate is open exactly when no item is active |
| `Scoring.HasAllAnswersMonotone` | src/utils/scoring.js:30-38 | adding a finite answer to an active item never closes an open gate |
| `Scoring.HasAllAnswersWhenEveryActiveItemAnswered` | src/utils/scoring.js:30-38 | when item ids are distinct and every active item has a finite answer, the gate is open |
| `Scoring.HasAllAnswersExactOnItemAnswers` | src/utils/scoring.js:30-38 | when item ids are distinct and every answer key is an item id, the gate is open exactly when every active item has a finite answer |
| `Scoring.StrayAnswerOpensGate` | src/utils/scoring.js:30-38 | the gate counts entries, not items: an answer under an id that is no item can stand in for an unanswered active item |
| `Ranking.ComputeRanking` | src/utils/scoring.js:15-22 | the ranking lists exactly the totals' (eneatype, score) pairs, once each, ordered by score descending then eneatype ascending |
| `Ranking.RankingDetermined` | src/utils/scoring.js:18-21 | any strictly ordered listing of the totals equals the computed ranking, so the ranking is fully determined by the totals |
| `Ranking.Entries` | src/utils/scoring.js:16-17 | `Object.entries` lists every total once, in ascending eneatype order |
| `Ranking.SortEntries` | src/utils/scoring.js:18-21 | sorting permutes the entries (multiset equality) |
| `Ranking.SortEntriesSorted` | src/utils/scoring.js:18-21 | with distinct eneatypes the comparator's order is total and the result strictly ordered |
| `Definitions.ApplyOverrides` | src/utils/definition.js:1-14 | same definition, questionnaires and items in the same order; item text is the override's when it has one; activity is the override's when it has one, otherwise true; every other field unchanged |
| `Definitions.ApplyNoOverrides` | src/utils/definition.js:6-11 | with no overrides every item becomes active and keeps its text |
| `Definitions.ApplyOverridesIdempotent` | src/utils/definition.js:1-14 | applying the same overrides twice is applying them once |
| `Definitions.QuestionnaireTitle` | src/utils/definition.js:16 | the title is returned unchanged |
| `ServerDefinition.MapScale` | functions/_utils/testDefinition.js:1-5 | bounds come straight from the row; missing labels become the empty map |
| `ServerDefinition.RowItem` | functions/_utils/testDefinition.js:54-59 | an item copies the row's id, order and text, and is active iff the row's flag is 1 |
| `ServerDefinition.GroupRowsIds` | functions/_utils/testDefinition.js:43-53 | the grouped list has one questionnaire per distinct questionnaire id in the rows, no id twice |
| `ServerDefinition.GroupRowsContents` | functions/_utils/testDefinition.js:43-60 | each questionnaire carries the header of the first row with its id, and the items of all its rows in row order |
| `ServerDefinition.GroupRowsOrder` | functions/_utils/testDefinition.js:43-53 | questionnaires appear in order of first appearance in the rows |
| `ServerDefinition.GroupRowsCounts` | functions/_utils/testDefinition.js:54-60 | the items across questionnaires number exactly the rows, and every questionnaire has at least one |
| `ServerDefinition.FindDefinition` | functions/_utils/testDefinition.js:8-18 | none exactly when no row matches id and version; otherwise the first matching row (`LIMIT 1`) |
| `ServerDefinition.GetTestDefinition` | functions/_utils/testDefinition.js:7-70 | null exactly when no definition row matches id and version; otherwise the first matching row's id, version, name and language, its scale, and the grouped questionnaires |
| `ServerDefinition.FirstActive` | functions/_utils/testDefinition.js:72-84 | none exactly when no row is active; otherwise the first active row of the `created_at DESC` order (`LIMIT 1`) |
| `ServerDefinition.GetActiveTestDefinition` | functions/_utils/testDefinition.js:72-87 | null exactly when no row is active; otherwise the definition looked up by the first active row's id and version, which always exists and carries that id and version |
| `AdminSession.ToNumber` | src/pages/AdminSessionPage.jsx:10 | a value is shown exactly when it is a finite number |
| `AdminSession.ResponseMap` | src/pages/AdminSessionPage.jsx:17-21 | one key per responded item; the last response for an item wins |
| `AdminSession.AdminTally` | src/pages/AdminSessionPage.jsx:26-34 | the recount has one key per eneatype and sums finite responses over all items, active or not |
| `AdminSession.AdminTallyAgreesWithoutDeactivation` | src/pages/AdminSessionPage.jsx:26-34 | when no override switches an item off, the recount equals the respondent's totals |
| `AdminSession.AdminTotals` | src/pages/AdminSessionPage.jsx:23-35 | empty without a definition; stored totals take precedence; otherwise the recount |
| `AdminSession.MaxScore` | src/pages/AdminSessionPage.jsx:46-49 | 1 for an empty ranking, otherwise a score of the ranking that bounds all others |
| `AdminSession.MaxScoreIsTopOfRanking` | src/pages/AdminSessionPage.jsx:37-49 | on a computed ranking the maximum is its first entry's score |
| `AdminSession.Section` | src/pages/AdminSessionPage.jsx:199-215 | a section shows its total when the totals have its eneatype, and each item's finite response or a dash |
| `AdminSession.View` | src/pages/AdminSessionPage.jsx:46-228 | loading, then a non-empty error, then missing data, else the detail: the ranking of the page's totals, the largest of its scores as the chart's maximum, the stored ranking, and one section per questionnaire in order |
| `AdminSession.RecountedSectionsShowTotals` | src/pages/AdminSessionPage.jsx:199-207 | without stored totals every last-of-eneatype section shows the sum of its responses |
| `SessionsTab.StatusLabel` | src/pages/admin/SessionsTab.jsx:1-27 | the four statuses have Spanish labels; a name inherited from `Object.prototype` shows no text; any other status is shown raw |
| `SessionsTab.StatusLabelRoundTrip` | src/pages/admin/SessionsTab.jsx:27 | the shown status text reads back as the status, for any status neither spelled like one of the four labels nor an inherited name |
| `SessionsTab.StatusLabelInjective` | src/pages/admin/SessionsTab.jsx:27 | two such statuses shown with the same text are the same status |
| `SessionsTab.LabelSpelledStatusCollides` | src/pages/admin/SessionsTab.jsx:27 | an unknown status spelled "Creada" is shown exactly like CREATED |
| `SessionsTab.InheritedNamesCollide` | src/pages/admin/SessionsTab.jsx:27 | "toString" and "valueOf" are both shown as no text |
| `SessionsTab.RowActions` | src/pages/admin/SessionsTab.jsx:34-43 | no status offers both revoke and reset; exactly a revoked session offers neither |
| `SessionsTab.FindUser` | src/pages/admin/SessionsTab.jsx:20 | the first user with the session's user id, none when there is no such user |
| `SessionsTab.DisplayName` | src/pages/admin/SessionsTab.jsx:20-21 | the owner's display name, else the session's own, else "Usuario" |
| `SessionsTab.SortSessions` | src/pages/admin/SessionsTab.jsx:16-18 | the displayed list is a permutation of the sessions |
| `SessionsTab.SortSessionsCorrect` | src/pages/admin/SessionsTab.jsx:16-18 | newest first, and sessions with equal creation time keep their input order |
| `SessionsTab.SortSessionsDetermined` | src/pages/admin/SessionsTab.jsx:16-18 | any newest-first list that keeps equal-time sessions in input order is the displayed list |
| `PublicPage.FindAnswers` | src/pages/PublicTestPage.jsx:17-18 | the answers of the first stored entry for the session, none when no entry matches |
| `PublicPage.View` | src/pages/PublicTestPage.jsx:16-161 | an unknown token gives the invalid-link view before any status check; REVOKED and COMPLETED select their views, with empty totals and ranking when the result lacks them; any other status gives the form, whose counter counts finite answers to ids not switched off and whose submit button is enabled when the finite answers to ids not switched off, items or not, reach the active count |
| `PublicPage.SectionOf` | src/pages/PublicTestPage.jsx:117-125 | a section shows its title and only the items whose activity flag is set, in order |
| `PublicPage.FormItemOf` | src/pages/PublicTestPage.jsx:126-143 | a choice is checked exactly when the item's answer equals the choice's value |
| `PublicPage.SubmitGateMatchesShownItems` | src/pages/PublicTestPage.jsx:124-156 | on a definition with the overrides applied, the number of items shown equals the count the gate requires |
| `PublicPage.AtMostOneChecked` | src/pages/PublicTestPage.jsx:130-136 | no item has two choices checked |
| `PublicPage.AnsweredValueIsChecked` | src/pages/PublicTestPage.jsx:130-136 | an item answered with a scale value has that choice checked |
| `ScaleChoices.DefaultScale` | src/data/testDefinition.js:6-12 | max − min + 1 choices (none for an inverted scale), consecutive values from min to max, each labelled by the labels' entry for its decimal text or by that text |
| `ScaleChoices.DefaultScaleCovers` | src/data/testDefinition.js:6-12 | a value has a choice exactly when it lies in [min, max], and then exactly one, at its offset from min |
| `ScaleChoices.DefaultScaleAscending` | src/data/testDefinition.js:9 | values strictly ascend |
| `ScaleChoices.DistinctChoicesDistinctKeys` | src/data/testDefinition.js:10 | different choices look up different label keys |
| `Router.ParseHash` | src/utils/router.js:1-10 | the first `#` is removed; a `/t/` prefix gives the test page with the trimmed rest as token and takes priority; an `/admin` prefix gives the panel; anything else home |
| `Router.TestLinkRoutes` | src/utils/router.js:2-5 | a `#/t/` hash link routes to the test page with exactly its token when the token has no surrounding whitespace |
| `Router.TokenLinkRoutes` | src/utils/router.js:2-5 | the hash link of a generated token routes to the test page with exactly that token |
| `Router.AdminRoutes` | src/utils/router.js:6-8 | any hash starting with `/admin`, with or without `#`, routes to the panel |
| `Ids.NextId` | src/utils/id.js:1 | 1 for no ids; otherwise one more than an existing id and larger than all of them |
| `Ids.NextIdFresh` | src/utils/id.js:1 | the new id is not in use, and is at least 1 when no id is negative |
| `Ids.NextIdAdvances` | src/utils/id.js:1 | allocating after recording the new id gives the next integer |
| `Token.HexEncode` | functions/_utils/token.js:4-6 | two lowercase hexadecimal characters per byte, zero-padded, high nibble first |
| `Token.DecodeEncode` | functions/_utils/token.js:4-6 | decoding the encoding gives back the bytes |
| `Token.EncodeDecode` | functions/_utils/token.js:14-16 | encoding a decodable text gives back the text |
| `Token.HexEncodeInjective` | functions/_utils/token.js:4-6 | different byte strings have different encodings |
| `Token.GenerateToken` | functions/_utils/token.js:1-7 | a token is 32 hexadecimal characters that decode to the 16 random bytes |
| `Token.HashInput` | functions/_utils/token.js:10-12 | the hashed text is the token, a colon, then the salt or the empty string |
| `Token.HashInputInjective` | functions/_utils/token.js:10-12 | for colon-free tokens the hashed text determines token and salt |
| `Token.HashToken` | functions/_utils/token.js:9-17 | 64 hexadecimal characters decoding to the digest of the hashed text |
| `Token.EqualHashesMeanEqualDigests` | functions/_utils/token.js:9-17 | two different tokens share a stored hash only through a SHA-256 collision |
| `UsersApi.FindExternalId` | functions/api/admin/users/index.js:30-36 | the lookup finds a row exactly when some account has the external id |
| `UsersApi.CreateUser` | functions/api/admin/users/index.js:22-62 | trims the names; 400 when either is empty; then 409 when the external id is taken; otherwise appends one account with the trimmed fields and a null or trimmed email |
| `UsersApi.Handle` | functions/api/admin/users/index.js:6-65 | GET lists, an unparseable POST body is rejected with 400 before any other check, POST creates, any other method gives 405 |
| `UsersApi.OnlyCreationChangesUsers` | functions/api/admin/users/index.js:18-63 | only a 201 reply changes the list, by exactly the created account |
| `UsersApi.CreationKeepsExternalIdsUnique` | functions/api/admin/users/index.js:30-51 | whatever the request, external ids that were unique stay unique |
| `UsersApi.CreatedNamesAreTrimmed` | functions/api/admin/users/index.js:22-27 | a created account's external id and display name are non-empty and carry no surrounding whitespace |
| `UsersApi.RepeatedCreationConflicts` | functions/api/admin/users/index.js:38-40 | repeating a successful creation gets 409 and changes nothing |
| `Loader.GetArg` | scripts/load-test-definition.mjs:7-11 | the value is the word after the first occurrence of the flag, none when that occurrence is the last word, and none when the flag is absent |
| `Loader.ParseArgs` | scripts/load-test-definition.mjs:15-37 | the three option errors in the script's order; otherwise the chosen mode, the file, version, database path and name from the first occurrence of their flags, and the force, activate and local switches |
| `Loader.Validate` | scripts/load-test-definition.mjs:43-59 | accepted exactly when there is an id, an array of 9 questionnaires, the scale 0..5 and 20 items in each; otherwise the first failing check's message, naming the first bad questionnaire; an accepted definition keeps the file's fields and each questionnaire's id, eneatype, title and items |
| `Loader.CheckQuestionnaires` | scripts/load-test-definition.mjs:55-59 | every questionnaire has an items array of 20, else the first failing questionnaire's message with its 1-based position |
| `Loader.EscapeSql` | scripts/load-test-definition.mjs:64 | the output is longer by the number of single quotes |
| `Loader.UnescapeEscape` | scripts/load-test-definition.mjs:64 | collapsing doubled quotes recovers the input |
| `Loader.EscapeWithoutQuotes` | scripts/load-test-definition.mjs:64 | text without quotes is unchanged |
| `Loader.BuildSqlTransaction` | scripts/load-test-definition.mjs:66-68 | BEGIN is exactly the first statement and COMMIT exactly the last when, and only when, a transaction is requested |
| `Loader.BuildSqlHeaderOrder` | scripts/load-test-definition.mjs:70-122 | deactivation first when activating (right after BEGIN when there is a transaction); forced deletes in the order responses, items, questionnaires; then the definition update and insert; no insert before them |
| `Loader.BuildSqlBlocks` | scripts/load-test-definition.mjs:124-151 | questionnaire `j`'s insert sits right after the header and the blocks of the questionnaires before it, and its whole block fits in the script |
| `Loader.BuildSqlItem` | scripts/load-test-definition.mjs:124-151 | item `k` of questionnaire `j` is inserted at offset `k + 1` after its questionnaire's insert, with order index `k + 1` and its escaped text |
| `Loader.ValidatedStatementCount` | scripts/load-test-definition.mjs:124-154 | a valid definition yields 189 questionnaire and item inserts |
| `Loader.SqliteLoad` | scripts/load-test-definition.mjs:158-306 | the target is the stored maximum when forcing and that maximum is non-zero, else the explicit version, else max + 1 or 1; it fails with the script's message exactly when the target is stored and force is off; otherwise it runs the SQLite loader's own statements for the target |
| `Loader.SqliteHeaderOrder` | scripts/load-test-definition.mjs:254-285 | the transaction first deactivates (with `--activate`), then deletes responses, items and questionnaires (with `--force`), then updates and inserts the definition with the raw bound values; nothing is inserted before that |
| `Loader.SqliteItemsFollowTheirQuestionnaire` | scripts/load-test-definition.mjs:287-300 | each item's insert, with position index + 1, follows its own questionnaire's insert with only item inserts in between, so `lastInsertRowid` names that questionnaire |
| `Loader.SqliteFreshVersion` | scripts/load-test-definition.mjs:166-176 | without an explicit version and without force the load never collides and goes past every stored version |
| `Loader.SqliteForceRewritesLatest` | scripts/load-test-definition.mjs:167-176 | with force and a non-zero stored maximum the load rewrites that maximum |
| `Loader.WranglerNext` | scripts/load-test-definition.mjs:309-318 | a truthy override, else one past a truthy current maximum, else 1 |
| `Loader.WranglerForceOverrideStepsBack` | scripts/load-test-definition.mjs:337 | as written, a forced load with override 3, with nothing stored or with 3 the largest stored version, writes version 2 where the SQLite path writes 3 |
| `Loader.WranglerCorrectedAgreesWithSqlite` | scripts/load-test-definition.mjs:335-338 | the corrected version equals the SQLite target whenever the override is not 0, and differs from the written one only on forced loads with an override |
| `Loader.WranglerLoad` | scripts/load-test-definition.mjs:335-338 | the wrangler load uses the corrected version and carries no BEGIN or COMMIT |
| `AppState.CreateUser` | src/App.jsx:112-120 | a created user goes to the front with "Usuario creado."; a failure reports the message and keeps the list |
| `AppState.CreateSession` | src/App.jsx:122-136 | a created session goes to the front and its link is origin + "/t/" + token; a failed copy still reports success with its own message |
| `AppState.MarkRevoked` | src/App.jsx:138-149 | only the sessions with the id become REVOKED; length and all else unchanged |
| `AppState.HandleRevoke` | src/App.jsx:138-149 | a failed call only sets the error |
| `AppState.RevokeClosesRow` | src/App.jsx:141-145 | a revoked row offers no action, and revoking twice is revoking once |
| `AppState.MarkReset` | src/App.jsx:151-164 | only the sessions with the id become CREATED with no start, completion or revocation time |
| `AppState.HandleReset` | src/App.jsx:151-164 | a failed call only sets the error |
| `AppState.ResetReopensRow` | src/App.jsx:154-159 | a reset row can be revoked and not reset, and keeps its owner and creation time |
| `AppState.UpdateItem` | src/App.jsx:169-185 | no definition stays none; only text and activity of items with the updated id change; the structure is preserved |
| `AppState.HandleUpdateItem` | src/App.jsx:166-190 | a successful call applies the returned item through the update above; a failed one sets the error and leaves the definition unchanged; users and sessions never change |
| `AppState.UpdateItemIdempotent` | src/App.jsx:169-185 | applying the same update twice is applying it once |
| `AppState.UpdatesCommute` | src/App.jsx:169-185 | updates of two different items commute |
| `AppState.AnswerChange` | src/App.jsx:192-209 | the answer is recorded; a CREATED session becomes STARTED only when the start call succeeds, and shows the error when it fails |
| `AppState.AnswerChangeFrame` | src/App.jsx:193-204 | no other answer changes, and the only status change is CREATED to STARTED |
| `AppState.SubmitPayload` | src/App.jsx:213-218 | one entry per answer, carrying that answer, in ascending item id |
| `AppState.SubmitPayloadRoundTrip` | src/App.jsx:213-218 | reading the payload back gives exactly the answers |

## Left out

- Database access, SQL evaluation and HTTP: joined rows, definition rows, stored versions and account lists are inputs. `ORDER BY`, `LIMIT` and `MAX` are taken as already applied.
- JSON parsing and serialisation: bodies and label maps arrive parsed. `String()` of non-strings and `Number()` of text are not modelled. `Number(value)` in the answer handler is an input.
- The random source, SHA-256 and UTF-8 encoding are parameters. The clock is an integer or text input.
- Asynchronous React state, effects and loading flags. Each handler is modelled as a pure update given the outcome of its server call.
- The submit handler's server call, the reload after it, and the loaders of the public and admin data (`loadPublicSession` and friends) are I/O.
- Server-side start, submit, revoke and reset handlers are not part of this model.
- The polar chart of the administrator page uses floating-point geometry.
- Date formatting, local storage, the clipboard write (only its outcome is an input), `window.location` and `navigateTo`.
- Presentational components: home page, top bar, footer, admin page, users tab, items tab.
- The modelled functions do not fit together as wired, and each is modelled as written:
  - The shell imports `parsePath`, which the router does not define.
  - The shell renders an `admin-session` route that `parseHash` never produces.
  - The link the shell copies is a path link (`/t/...`), while the router reads the hash.
  - The shell passes the respondent page props it does not read (`data`, `answers`).
  - The page calls `onAnswerChange(session.id, item.id, value)` (src/pages/PublicTestPage.jsx:138), but the shell's `handleAnswerChange(itemId, value)` takes two arguments (src/App.jsx:192, 264). As wired, the answer is recorded under the session id and the value is the item id.
  - The page calls `onSubmit(session.id)` (src/pages/PublicTestPage.jsx:155), but the shell's `handleSubmit(token)` expects the token (src/App.jsx:211, 265).
- `SessionsTab.StatusLabel`: a status naming an `Object.prototype` member finds that member instead of falling back to the raw status. The functions render as no text, which the model returns. `__proto__` finds the prototype object, which React refuses to render; the model shows no text for it as well. No server path writes such a status.
- `UsersApi.CreationKeepsExternalIdsUnique`: requests are modelled one at a time, each as one step on one list. In the code the duplicate check (functions/api/admin/users/index.js:30-36) and the insert (44-51) are separate awaited statements with no transaction, so two concurrent requests with the same external id can both pass the check before either inserts. Only a database constraint, which is not part of this model, would stop that.
- `UsersApi.Handle`: GET returns the list in stored order, and a creation appends at the end. The code's `ORDER BY created_at DESC` (functions/api/admin/users/index.js:11) would list the new account first, so the GET order is not kept across creations.
- `Loader.BuildSql`: statements are values carrying their escaped fields, not SQL text. The final `join('\n')` is not modelled.
- `Loader.SqliteLoad`: the SQLite path runs its own prepared statements (`Loader.SqliteStatements`), not `buildSql` text. It differs from `buildSql` in two ways. It binds `source_pdf ?? null`, so an empty path is stored as the empty text where `buildSql` writes NULL (`Loader.EmptySourcePdf`). Its items attach to `lastInsertRowid`, the questionnaire row inserted just before them, where `buildSql` looks the questionnaire up by eneatype. The two agree only when eneatypes are distinct, which validation does not check. Which row `lastInsertRowid` names is taken from the statement order and is not evaluated.
- `Loader.WranglerLoad`: uses the corrected version (see Findings). The as-written rule is `Loader.WranglerVersion`.
- `Ranking.Entries`: lists every key in ascending order. JavaScript lists negative keys after the array-index ones, in insertion order, which the model does not track. Eneatypes 1..9 are unaffected.
- `AppState.SubmitPayload`: orders entries by ascending item id, which matches `Object.entries` only for non-negative item ids. Database ids are positive.
- `AdminSession.View`: the chart geometry and formatted dates are not part of the detail; only its maximum score is.
- `PublicPage.View`: the form's navigation button is not modelled, and neither are the arguments its answer and submit handlers receive (see the wiring list above).

## Findings

| source | as written | input that shows it | evidently intended | confidence | as-written member | corrected member |
|---|---|---|---|---|---|---|
| scripts/load-test-definition.mjs:337 | with `--force` the wrangler path loads `nextVersion - 1`, or 1 when that is 0, even when `nextVersion` is the explicit `--version` | `--wrangler --force --version 3`, with nothing stored or with 3 the largest stored version, loads version 2, where the SQLite path loads 3 | a forced load rewrites the stored maximum, as the SQLite path does; this needs the maximum query (mjs:312-316) even when an override is given | medium, not executed | `Loader.WranglerForceOverrideStepsBack` | `Loader.WranglerCorrectedAgreesWithSqlite` |
