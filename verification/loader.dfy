/**
 The definition loader script: command-line options, validation of the
 definition file, SQL string escaping, the statement list that replaces or
 creates a definition version, and the choice of that version in the two
 load modes (a local SQLite file, or a remote database through wrangler).
 Statements are modelled as values, not as SQL text; the database, the
 wrangler process and the file system are not modelled.
 */
module Loader {
  import opened Common
  import Text

  // ---------------------------------------------------------------------
  // Command line

  /** `args.indexOf(flag) == i`. */
  predicate FirstIndexOf(args: seq<string>, flag: string, i: int) {
    0 <= i < |args| && args[i] == flag && forall j :: 0 <= j < i ==> args[j] != flag
  }

  /** `getArg(flag)`: the word after the first occurrence of `flag`, or
      nothing when the flag is absent or is the last word. */
  function GetArg(args: seq<string>, flag: string): (r: Option<string>)
    ensures forall i :: FirstIndexOf(args, flag, i) ==> r == (if i + 1 < |args| then Some(args[i + 1]) else None)
    ensures (forall i :: 0 <= i < |args| ==> args[i] != flag) ==> r.None?
  {
    if |args| == 0 then None
    else if args[0] == flag then (if |args| > 1 then Some(args[1]) else None)
    else
      var r := GetArg(args[1..], flag);
      forall i | FirstIndexOf(args, flag, i)
        ensures r == (if i + 1 < |args| then Some(args[i + 1]) else None)
      {
        assert FirstIndexOf(args[1..], flag, i - 1);
      }
      assert (forall i :: 0 <= i < |args| ==> args[i] != flag) ==> (forall i :: 0 <= i < |args[1..]| ==> args[1..][i] != flag);
      r
  }

  /** `hasFlag(flag)`. */
  predicate HasFlag(args: seq<string>, flag: string) {
    flag in args
  }

  /** A missing or empty option value is falsy. */
  predicate Given(v: Option<string>) {
    v.Some? && v.value != ""
  }

  datatype Config = Config(
    jsonPath: string,
    wrangler: bool,
    dbPath: Option<string>,
    dbName: Option<string>,
    versionArg: Option<string>,
    activate: bool,
    force: bool,
    local: bool)

  /** The option checks that run before the file is read. */
  function ParseArgs(args: seq<string>): (r: Result<Config, string>)
    ensures !Given(GetArg(args, "--json")) ==> r == Err("Missing --json path")
    ensures Given(GetArg(args, "--json")) && HasFlag(args, "--wrangler") && !Given(GetArg(args, "--db-name")) ==>
      r == Err("Missing --db-name for wrangler mode")
    ensures Given(GetArg(args, "--json")) && !HasFlag(args, "--wrangler") && !Given(GetArg(args, "--db")) ==>
      r == Err("Missing --db path for sqlite mode")
    ensures r.Ok? <==>
      Given(GetArg(args, "--json")) &&
      (if HasFlag(args, "--wrangler") then Given(GetArg(args, "--db-name")) else Given(GetArg(args, "--db")))
    ensures r.Ok? ==>
      && r.value.jsonPath == GetArg(args, "--json").value
      && r.value.wrangler == HasFlag(args, "--wrangler")
      && r.value.activate == HasFlag(args, "--activate")
      && r.value.force == HasFlag(args, "--force")
      && r.value.versionArg == GetArg(args, "--version")
      && r.value.dbPath == GetArg(args, "--db")
      && r.value.dbName == GetArg(args, "--db-name")
      && r.value.local == HasFlag(args, "--local")
  {
    var json := GetArg(args, "--json");
    var wrangler := HasFlag(args, "--wrangler");
    var dbPath := GetArg(args, "--db");
    var dbName := GetArg(args, "--db-name");
    if !Given(json) then Err("Missing --json path")
    else if wrangler && !Given(dbName) then Err("Missing --db-name for wrangler mode")
    else if !wrangler && !Given(dbPath) then Err("Missing --db path for sqlite mode")
    else Ok(Config(json.value, wrangler, dbPath, dbName, GetArg(args, "--version"),
                   HasFlag(args, "--activate"), HasFlag(args, "--force"), HasFlag(args, "--local")))
  }

  // ---------------------------------------------------------------------
  // The definition file

  /** A questionnaire as the file holds it; `items` is `None` when it is not
      an array. */
  datatype QuestionnaireFile = QuestionnaireFile(id: int, eneatype: int, title: string, items: Option<seq<string>>)

  datatype ScaleFile = ScaleFile(min: Option<int>, max: Option<int>)

  /** The file's `test` object; a field is `None` when absent, and
      `questionnaires` is `None` when it is not an array. `labelsJson` is
      `JSON.stringify(test.scale.labels ?? {})`. */
  datatype TestFile = TestFile(
    id: Option<string>,
    name: string,
    language: string,
    scale: Option<ScaleFile>,
    labelsJson: string,
    sourcePdf: Option<string>,
    questionnaires: Option<seq<QuestionnaireFile>>)

  /** A questionnaire that passed validation. */
  datatype QuestionnaireDef = QuestionnaireDef(id: int, eneatype: int, title: string, items: seq<string>)

  /** A definition that passed validation. */
  datatype TestDef = TestDef(
    id: string,
    name: string,
    language: string,
    scaleMin: int,
    scaleMax: int,
    labelsJson: string,
    sourcePdf: Option<string>,
    questionnaires: seq<QuestionnaireDef>)

  const QUESTIONNAIRE_COUNT := 9
  const ITEMS_PER_QUESTIONNAIRE := 20

  /** `test.scale?.min === 0 && test.scale?.max === 5`. */
  predicate ScaleIsZeroToFive(scale: Option<ScaleFile>) {
    scale.Some? && scale.value.min == Some(0) && scale.value.max == Some(5)
  }

  /** What the `ensure` calls accept. */
  predicate Acceptable(t: TestFile) {
    && Given(t.id)
    && t.questionnaires.Some?
    && |t.questionnaires.value| == QUESTIONNAIRE_COUNT
    && ScaleIsZeroToFive(t.scale)
    && forall i :: 0 <= i < |t.questionnaires.value| ==> WellFormed(t.questionnaires.value[i])
  }

  /** `questionnaire.items` is an array of exactly 20 items. */
  predicate WellFormed(q: QuestionnaireFile) {
    q.items.Some? && |q.items.value| == ITEMS_PER_QUESTIONNAIRE
  }

  /** The message for a questionnaire at 1-based position `pos` that is not
      well formed: a missing items array is reported before a wrong count. */
  function QuestionnaireError(q: QuestionnaireFile, pos: int): string {
    if q.items.None? then "Invalid test definition: questionnaire " + Text.IntToString(pos) + " missing items"
    else "Invalid test definition: questionnaire " + Text.IntToString(pos) + " must have 20 items"
  }

  /** The per-questionnaire checks of the `forEach`, from position `from` on:
      the first questionnaire that is not well formed decides the error. */
  function CheckQuestionnaires(qs: seq<QuestionnaireFile>, from: nat): (r: Result<seq<QuestionnaireDef>, string>)
    requires from <= |qs|
    ensures r.Ok? <==> forall i :: from <= i < |qs| ==> WellFormed(qs[i])
    ensures r.Ok? ==> |r.value| == |qs| - from && forall i :: from <= i < |qs| ==>
      r.value[i - from] == QuestionnaireDef(qs[i].id, qs[i].eneatype, qs[i].title, qs[i].items.value)
    ensures r.Err? ==>
      exists i :: from <= i < |qs| && !WellFormed(qs[i]) &&
        (forall j :: from <= j < i ==> WellFormed(qs[j])) && r.error == QuestionnaireError(qs[i], i + 1)
    decreases |qs| - from
  {
    if from == |qs| then Ok([])
    else
      var q := qs[from];
      if !WellFormed(q) then Err(QuestionnaireError(q, from + 1))
      else
        match CheckQuestionnaires(qs, from + 1)
        case Err(e) =>
          var i :| from + 1 <= i < |qs| && !WellFormed(qs[i]) &&
            (forall j :: from + 1 <= j < i ==> WellFormed(qs[j])) && e == QuestionnaireError(qs[i], i + 1);
          assert forall j :: from <= j < i ==> WellFormed(qs[j]);
          Err(e)
        case Ok(rest) =>
          var r := [QuestionnaireDef(q.id, q.eneatype, q.title, q.items.value)] + rest;
          assert forall k :: 0 < k < |r| ==> r[k] == rest[k - 1];
          Ok(r)
  }

  /** The `ensure` sequence: id, questionnaires array, count, scale, then each
      questionnaire; the first failure is the error. */
  function Validate(test: Option<TestFile>): (r: Result<TestDef, string>)
    ensures r.Ok? <==> test.Some? && Acceptable(test.value)
    ensures (test.None? || !Given(test.value.id)) ==> r == Err("Invalid test definition: missing test.id")
    ensures test.Some? && Given(test.value.id) && test.value.questionnaires.None? ==>
      r == Err("Invalid test definition: missing questionnaires array")
    ensures test.Some? && Given(test.value.id) && test.value.questionnaires.Some?
            && |test.value.questionnaires.value| != QUESTIONNAIRE_COUNT ==>
      r == Err("Invalid test definition: expected 9 questionnaires")
    ensures test.Some? && Given(test.value.id) && test.value.questionnaires.Some?
            && |test.value.questionnaires.value| == QUESTIONNAIRE_COUNT && !ScaleIsZeroToFive(test.value.scale) ==>
      r == Err("Invalid test definition: scale must be 0..5")
    ensures test.Some? && Given(test.value.id) && test.value.questionnaires.Some?
            && |test.value.questionnaires.value| == QUESTIONNAIRE_COUNT && ScaleIsZeroToFive(test.value.scale) ==>
      var qs := test.value.questionnaires.value;
      forall i :: 0 <= i < |qs| && !WellFormed(qs[i]) && (forall j :: 0 <= j < i ==> WellFormed(qs[j])) ==>
        r == Err(QuestionnaireError(qs[i], i + 1))
    ensures r.Ok? ==>
      var t := test.value;
      && r.value.id == t.id.value
      && r.value.name == t.name && r.value.language == t.language
      && r.value.labelsJson == t.labelsJson && r.value.sourcePdf == t.sourcePdf
      && r.value.scaleMin == 0 && r.value.scaleMax == 5
      && |r.value.questionnaires| == QUESTIONNAIRE_COUNT
      && (forall i :: 0 <= i < |r.value.questionnaires| ==>
            |r.value.questionnaires[i].items| == ITEMS_PER_QUESTIONNAIRE
            && r.value.questionnaires[i] == QuestionnaireDef(t.questionnaires.value[i].id, t.questionnaires.value[i].eneatype,
                                                              t.questionnaires.value[i].title, t.questionnaires.value[i].items.value))
  {
    if test.None? || !Given(test.value.id) then Err("Invalid test definition: missing test.id")
    else
      var t := test.value;
      if t.questionnaires.None? then Err("Invalid test definition: missing questionnaires array")
      else if |t.questionnaires.value| != QUESTIONNAIRE_COUNT then Err("Invalid test definition: expected 9 questionnaires")
      else if !ScaleIsZeroToFive(t.scale) then
        Err("Invalid test definition: scale must be 0..5")
      else
        match CheckQuestionnaires(t.questionnaires.value, 0)
        case Err(e) => Err(e)
        case Ok(qs) =>
          assert forall i :: 0 <= i < |qs| ==>
                   (WellFormed(t.questionnaires.value[i]) &&
                    qs[i] == QuestionnaireDef(t.questionnaires.value[i].id, t.questionnaires.value[i].eneatype,
                                              t.questionnaires.value[i].title, t.questionnaires.value[i].items.value)) by {
            forall i | 0 <= i < |qs|
              ensures WellFormed(t.questionnaires.value[i])
              ensures qs[i] == QuestionnaireDef(t.questionnaires.value[i].id, t.questionnaires.value[i].eneatype,
                                                t.questionnaires.value[i].title, t.questionnaires.value[i].items.value)
            {
              assert qs[i - 0] == qs[i];
            }
          }
          Ok(TestDef(t.id.value, t.name, t.language, 0, 5, t.labelsJson, t.sourcePdf, qs))
  }

  // ---------------------------------------------------------------------
  // Escaping

  /** `escapeSql(value)`: every single quote doubled. */
  function EscapeSql(s: string): (r: string)
    ensures |r| == |s| + Text.CountChar(s, '\'')
  {
    if |s| == 0 then ""
    else (if s[0] == '\'' then "''" else [s[0]]) + EscapeSql(s[1..])
  }

  /** Replacing each `''` by `'`, left to right. */
  function Unescape(s: string): string {
    if |s| == 0 then ""
    else if |s| >= 2 && s[0] == '\'' && s[1] == '\'' then "'" + Unescape(s[2..])
    else [s[0]] + Unescape(s[1..])
  }

  lemma {:induction false} UnescapeEscape(s: string)
    ensures Unescape(EscapeSql(s)) == s
  {
    if |s| > 0 {
      UnescapeEscape(s[1..]);
      var e := EscapeSql(s);
      if s[0] == '\'' {
        assert e == "''" + EscapeSql(s[1..]);
        assert e[2..] == EscapeSql(s[1..]);
      } else {
        assert e == [s[0]] + EscapeSql(s[1..]);
        assert e[1..] == EscapeSql(s[1..]);
      }
      assert s == [s[0]] + s[1..];
    }
  }

  /** Escaping changes nothing but quotes: without a quote the value is kept. */
  lemma {:induction false} EscapeWithoutQuotes(s: string)
    requires forall i :: 0 <= i < |s| ==> s[i] != '\''
    ensures EscapeSql(s) == s
  {
    if |s| > 0 {
      EscapeWithoutQuotes(s[1..]);
      assert s == [s[0]] + s[1..];
    }
  }

  // ---------------------------------------------------------------------
  // Statements

  /** The columns written to the `test_definition` row; strings are the
      literal contents, already escaped. */
  datatype DefinitionColumns = DefinitionColumns(
    id: string,
    name: string,
    language: string,
    scaleMin: int,
    scaleMax: int,
    labelsJson: string,
    sourcePdf: Option<string>,
    version: int,
    isActive: int,
    createdAt: string)

  datatype Stmt =
    | Begin
    | Commit
    | Deactivate(definitionId: string)
    | DeleteResponses(definitionId: string)
    | DeleteItems(definitionId: string)
    | DeleteQuestionnaires(definitionId: string)
    | UpdateDefinition(columns: DefinitionColumns)
    | InsertDefinitionIfMissing(columns: DefinitionColumns)
    | InsertQuestionnaire(definitionId: string, version: int, eneatype: int, title: string, orderIndex: int)
    | InsertItem(definitionId: string, version: int, eneatype: int, orderIndex: int, text: string)
      /** An item row attached to the questionnaire row inserted last
          (`result.lastInsertRowid`). */
    | InsertItemIntoLast(orderIndex: int, text: string)
  {
    predicate IsInsert() {
      InsertDefinitionIfMissing? || InsertQuestionnaire? || InsertItem? || InsertItemIntoLast?
    }
  }

  /** `test.source_pdf ? escaped : NULL`. */
  function SourcePdfColumn(sourcePdf: Option<string>): Option<string> {
    if sourcePdf.Some? && sourcePdf.value != "" then Some(EscapeSql(sourcePdf.value)) else None
  }

  function Columns(t: TestDef, version: int, activate: bool, now: string): DefinitionColumns {
    DefinitionColumns(EscapeSql(t.id), EscapeSql(t.name), EscapeSql(t.language), t.scaleMin, t.scaleMax,
                      EscapeSql(t.labelsJson), SourcePdfColumn(t.sourcePdf), version, if activate then 1 else 0, now)
  }

  /** The item inserts of one questionnaire: positions 1, 2, ... */
  function ItemInserts(definitionId: string, version: int, q: QuestionnaireDef): (r: seq<Stmt>)
    ensures |r| == |q.items|
    ensures forall k :: 0 <= k < |r| ==> r[k] == InsertItem(definitionId, version, q.eneatype, k + 1, EscapeSql(q.items[k]))
  {
    seq(|q.items|, k requires 0 <= k < |q.items| => InsertItem(definitionId, version, q.eneatype, k + 1, EscapeSql(q.items[k])))
  }

  /** One questionnaire's insert followed by its items' inserts. */
  function QuestionnaireBlock(definitionId: string, version: int, q: QuestionnaireDef): seq<Stmt> {
    [InsertQuestionnaire(definitionId, version, q.eneatype, EscapeSql(q.title), q.id)] + ItemInserts(definitionId, version, q)
  }

  function Blocks(definitionId: string, version: int, qs: seq<QuestionnaireDef>): seq<Stmt> {
    if |qs| == 0 then [] else QuestionnaireBlock(definitionId, version, qs[0]) + Blocks(definitionId, version, qs[1..])
  }

  /** The position of questionnaire `j`'s block: one statement per earlier
      questionnaire and per earlier item. */
  function BlockStart(qs: seq<QuestionnaireDef>, j: nat): nat
    requires j <= |qs|
  {
    if j == 0 then 0 else 1 + |qs[0].items| + BlockStart(qs[1..], j - 1)
  }

  lemma {:induction false} BlocksLength(definitionId: string, version: int, qs: seq<QuestionnaireDef>)
    ensures |Blocks(definitionId, version, qs)| == BlockStart(qs, |qs|)
  {
    if |qs| > 0 {
      BlocksLength(definitionId, version, qs[1..]);
    }
  }

  lemma {:induction false} BlocksAreInserts(definitionId: string, version: int, qs: seq<QuestionnaireDef>)
    ensures forall i :: 0 <= i < |Blocks(definitionId, version, qs)| ==>
      Blocks(definitionId, version, qs)[i].InsertQuestionnaire? || Blocks(definitionId, version, qs)[i].InsertItem?
  {
    if |qs| > 0 {
      BlocksAreInserts(definitionId, version, qs[1..]);
      var b := QuestionnaireBlock(definitionId, version, qs[0]);
      var rest := Blocks(definitionId, version, qs[1..]);
      assert forall i :: |b| <= i < |b| + |rest| ==> (b + rest)[i] == rest[i - |b|];
    }
  }

  /** Blocks of a non-empty list: the first questionnaire's block, then the rest. */
  lemma BlocksCons(definitionId: string, version: int, qs: seq<QuestionnaireDef>, i: int)
    requires |qs| > 0
    requires 1 + |qs[0].items| <= i < |Blocks(definitionId, version, qs)|
    ensures Blocks(definitionId, version, qs)[i] == Blocks(definitionId, version, qs[1..])[i - 1 - |qs[0].items|]
  {
    var b := QuestionnaireBlock(definitionId, version, qs[0]);
    var rest := Blocks(definitionId, version, qs[1..]);
    assert Blocks(definitionId, version, qs) == b + rest;
    assert |b| == 1 + |qs[0].items|;
    assert (b + rest)[i] == rest[i - |b|];
  }

  /** Questionnaire `j`'s insert opens its block, and the block fits. */
  lemma {:induction false} BlockLayout(definitionId: string, version: int, qs: seq<QuestionnaireDef>, j: nat)
    requires j < |qs|
    ensures BlockStart(qs, j) + 1 + |qs[j].items| <= |Blocks(definitionId, version, qs)|
    ensures Blocks(definitionId, version, qs)[BlockStart(qs, j)]
         == InsertQuestionnaire(definitionId, version, qs[j].eneatype, EscapeSql(qs[j].title), qs[j].id)
  {
    if j > 0 {
      var n := 1 + |qs[0].items|;
      BlockLayout(definitionId, version, qs[1..], j - 1);
      assert qs[1..][j - 1] == qs[j];
      var p := BlockStart(qs[1..], j - 1);
      assert BlockStart(qs, j) == n + p;
      BlocksCons(definitionId, version, qs, n + p);
    }
  }

  /** Item `k` of questionnaire `j` directly follows the questionnaire's
      insert and the inserts of items `0 .. k - 1`, with position `k + 1`. */
  lemma {:induction false} BlockItem(definitionId: string, version: int, qs: seq<QuestionnaireDef>, j: nat, k: nat)
    requires j < |qs| && k < |qs[j].items|
    ensures BlockStart(qs, j) + 1 + k < |Blocks(definitionId, version, qs)|
    ensures Blocks(definitionId, version, qs)[BlockStart(qs, j) + 1 + k]
         == InsertItem(definitionId, version, qs[j].eneatype, k + 1, EscapeSql(qs[j].items[k]))
  {
    var b := QuestionnaireBlock(definitionId, version, qs[0]);
    var rest := Blocks(definitionId, version, qs[1..]);
    assert Blocks(definitionId, version, qs) == b + rest;
    assert |b| == 1 + |qs[0].items|;
    if j > 0 {
      BlockItem(definitionId, version, qs[1..], j - 1, k);
      assert qs[1..][j - 1] == qs[j];
      var p := BlockStart(qs[1..], j - 1);
      assert BlockStart(qs, j) == |b| + p;
      assert (b + rest)[|b| + p + 1 + k] == rest[p + 1 + k];
    } else {
      var items := ItemInserts(definitionId, version, qs[0]);
      assert b[1 + k] == items[k];
      assert (b + rest)[1 + k] == b[1 + k];
    }
  }

  /** The number of statements before the questionnaire blocks. */
  function HeaderLength(includeTransaction: bool, activate: bool, force: bool): nat {
    (if includeTransaction then 1 else 0) + (if activate then 1 else 0) + (if force then 3 else 0) + 2
  }

  /** The statements before the questionnaire blocks, for definition id
      `id` and definition row `c`. */
  function Header(id: string, includeTransaction: bool, activate: bool, force: bool, c: DefinitionColumns): (r: seq<Stmt>)
    ensures |r| == HeaderLength(includeTransaction, activate, force)
  {
    (if includeTransaction then [Begin] else [])
    + (if activate then [Deactivate(id)] else [])
    + (if force then [DeleteResponses(id), DeleteItems(id), DeleteQuestionnaires(id)] else [])
    + [UpdateDefinition(c), InsertDefinitionIfMissing(c)]
  }

  /** `buildSql(version, includeTransaction)`. */
  function BuildSql(t: TestDef, version: int, includeTransaction: bool, activate: bool, force: bool, now: string): seq<Stmt> {
    Header(EscapeSql(t.id), includeTransaction, activate, force, Columns(t, version, activate, now))
    + Blocks(EscapeSql(t.id), version, t.questionnaires)
    + (if includeTransaction then [Commit] else [])
  }

  /** Where statement `i` of `buildSql` comes from. */
  lemma BuildSqlIndex(t: TestDef, version: int, includeTransaction: bool, activate: bool, force: bool, now: string, i: int)
    requires 0 <= i < |BuildSql(t, version, includeTransaction, activate, force, now)|
    ensures var h := Header(EscapeSql(t.id), includeTransaction, activate, force, Columns(t, version, activate, now));
      var bl := Blocks(EscapeSql(t.id), version, t.questionnaires);
      var r := BuildSql(t, version, includeTransaction, activate, force, now);
      && |r| == |h| + |bl| + (if includeTransaction then 1 else 0)
      && (i < |h| ==> r[i] == h[i])
      && (|h| <= i < |h| + |bl| ==> r[i] == bl[i - |h|])
      && (|h| + |bl| <= i ==> r[i] == Commit)
  {
  }

  /** BEGIN comes first and COMMIT last exactly when a transaction is
      requested, and neither appears anywhere else. */
  lemma BuildSqlTransaction(t: TestDef, version: int, includeTransaction: bool, activate: bool, force: bool, now: string)
    ensures var r := BuildSql(t, version, includeTransaction, activate, force, now);
      && (includeTransaction ==> r[0] == Begin && r[|r| - 1] == Commit)
      && (forall i :: 0 <= i < |r| && r[i] == Begin ==> includeTransaction && i == 0)
      && (forall i :: 0 <= i < |r| && r[i] == Commit ==> includeTransaction && i == |r| - 1)
  {
    var r := BuildSql(t, version, includeTransaction, activate, force, now);
    HeaderLayout(EscapeSql(t.id), includeTransaction, activate, force, Columns(t, version, activate, now));
    BlocksAreInserts(EscapeSql(t.id), version, t.questionnaires);
    forall i | 0 <= i < |r|
      ensures r[i] == Begin ==> includeTransaction && i == 0
      ensures r[i] == Commit ==> includeTransaction && i == |r| - 1
    {
      BuildSqlIndex(t, version, includeTransaction, activate, force, now, i);
    }
    if includeTransaction {
      BuildSqlIndex(t, version, includeTransaction, activate, force, now, 0);
      BuildSqlIndex(t, version, includeTransaction, activate, force, now, |r| - 1);
    }
  }

  /** The deactivation comes right after BEGIN; the three deletes follow in
      the order responses, items, questionnaires; then the definition row's
      update and insert-if-missing; every insert comes after the deletes. */
  lemma BuildSqlHeaderOrder(t: TestDef, version: int, includeTransaction: bool, activate: bool, force: bool, now: string)
    ensures var r := BuildSql(t, version, includeTransaction, activate, force, now);
      var b := (if includeTransaction then 1 else 0) + (if activate then 1 else 0);
      var d := b + (if force then 3 else 0);
      var id := EscapeSql(t.id);
      && d + 2 <= |r|
      && (activate ==> r[b - 1] == Deactivate(id))
      && (force ==> r[b] == DeleteResponses(id) && r[b + 1] == DeleteItems(id) && r[b + 2] == DeleteQuestionnaires(id))
      && r[d] == UpdateDefinition(Columns(t, version, activate, now))
      && r[d + 1] == InsertDefinitionIfMissing(Columns(t, version, activate, now))
      && (forall i :: 0 <= i < |r| && r[i].IsInsert() ==> d < i)
  {
    var r := BuildSql(t, version, includeTransaction, activate, force, now);
    var h := Header(EscapeSql(t.id), includeTransaction, activate, force, Columns(t, version, activate, now));
    var d := HeaderLength(includeTransaction, activate, force) - 2;
    HeaderLayout(EscapeSql(t.id), includeTransaction, activate, force, Columns(t, version, activate, now));
    HeaderOpening(EscapeSql(t.id), includeTransaction, activate, force, Columns(t, version, activate, now));
    BlocksAreInserts(EscapeSql(t.id), version, t.questionnaires);
    forall i | 0 <= i < |r|
      ensures i < |h| ==> r[i] == h[i]
      ensures r[i].IsInsert() ==> d < i
    {
      BuildSqlIndex(t, version, includeTransaction, activate, force, now, i);
    }
  }

  /** The header ends with the definition row's update and insert, and no
      statement before them is an insert, a COMMIT, or a BEGIN other than
      the first statement. */
  lemma HeaderLayout(id: string, includeTransaction: bool, activate: bool, force: bool, c: DefinitionColumns)
    ensures var h := Header(id, includeTransaction, activate, force, c);
      var d := HeaderLength(includeTransaction, activate, force) - 2;
      && h[d] == UpdateDefinition(c)
      && h[d + 1] == InsertDefinitionIfMissing(c)
      && (forall i :: 0 <= i < d ==> !h[i].IsInsert())
      && (forall i :: 0 <= i < |h| ==> h[i] != Commit && (h[i] == Begin ==> includeTransaction && i == 0))
  {
    var t1: seq<Stmt> := if includeTransaction then [Begin] else [];
    var t2: seq<Stmt> := if activate then [Deactivate(id)] else [];
    var t3: seq<Stmt> := if force then [DeleteResponses(id), DeleteItems(id), DeleteQuestionnaires(id)] else [];
    var pre := t1 + t2 + t3;
    assert Header(id, includeTransaction, activate, force, c) == pre + [UpdateDefinition(c), InsertDefinitionIfMissing(c)];
    PrefixStatements(t1, t2, t3);
  }

  /** BEGIN, the deactivation and the three deletes open the header in that
      order, each when requested. */
  lemma HeaderOpening(id: string, includeTransaction: bool, activate: bool, force: bool, c: DefinitionColumns)
    ensures var h := Header(id, includeTransaction, activate, force, c);
      var b := (if includeTransaction then 1 else 0) + (if activate then 1 else 0);
      && (includeTransaction ==> h[0] == Begin)
      && (activate ==> h[b - 1] == Deactivate(id))
      && (force ==> h[b] == DeleteResponses(id) && h[b + 1] == DeleteItems(id) && h[b + 2] == DeleteQuestionnaires(id))
  {
    var t1: seq<Stmt> := if includeTransaction then [Begin] else [];
    var t2: seq<Stmt> := if activate then [Deactivate(id)] else [];
    var t3: seq<Stmt> := if force then [DeleteResponses(id), DeleteItems(id), DeleteQuestionnaires(id)] else [];
    var h := Header(id, includeTransaction, activate, force, c);
    assert h == t1 + t2 + (t3 + [UpdateDefinition(c), InsertDefinitionIfMissing(c)]);
    if activate {
      assert h[|t1|] == t2[0];
    }
    if force {
      var b := |t1| + |t2|;
      assert h[b] == t3[0] && h[b + 1] == t3[1] && h[b + 2] == t3[2];
    }
  }

  /** BEGIN (when present), then statements that are neither inserts nor
      BEGIN nor COMMIT. */
  lemma PrefixStatements(t1: seq<Stmt>, t2: seq<Stmt>, t3: seq<Stmt>)
    requires t1 == [] || t1 == [Begin]
    requires forall i :: 0 <= i < |t2| ==> !t2[i].IsInsert() && t2[i] != Begin && t2[i] != Commit
    requires forall i :: 0 <= i < |t3| ==> !t3[i].IsInsert() && t3[i] != Begin && t3[i] != Commit
    ensures var pre := t1 + t2 + t3;
      forall i :: 0 <= i < |pre| ==>
        !pre[i].IsInsert() && pre[i] != Commit && (pre[i] == Begin ==> t1 == [Begin] && i == 0)
  {
    var pre := t1 + t2 + t3;
    forall i | 0 <= i < |pre|
      ensures !pre[i].IsInsert() && pre[i] != Commit && (pre[i] == Begin ==> t1 == [Begin] && i == 0)
    {
      if i < |t1| {
        assert pre[i] == t1[i];
      } else if i < |t1| + |t2| {
        assert pre[i] == t2[i - |t1|];
      } else {
        assert pre[i] == t3[i - |t1| - |t2|];
      }
    }
  }

  /** Statement `i` of the blocks is statement `HeaderLength + i` of `buildSql`. */
  lemma BuildSqlBlockIndex(t: TestDef, version: int, includeTransaction: bool, activate: bool, force: bool, now: string, i: int)
    requires 0 <= i < |Blocks(EscapeSql(t.id), version, t.questionnaires)|
    ensures HeaderLength(includeTransaction, activate, force) + i < |BuildSql(t, version, includeTransaction, activate, force, now)|
    ensures BuildSql(t, version, includeTransaction, activate, force, now)[HeaderLength(includeTransaction, activate, force) + i]
         == Blocks(EscapeSql(t.id), version, t.questionnaires)[i]
  {
  }

  /** Questionnaire `j`'s insert sits right after the header and the earlier
      blocks, and its whole block fits before the end. */
  lemma BuildSqlBlocks(t: TestDef, version: int, includeTransaction: bool, activate: bool, force: bool, now: string, j: nat)
    requires j < |t.questionnaires|
    ensures var r := BuildSql(t, version, includeTransaction, activate, force, now);
      var p := HeaderLength(includeTransaction, activate, force) + BlockStart(t.questionnaires, j);
      var q := t.questionnaires[j];
      && p + |q.items| < |r|
      && r[p] == InsertQuestionnaire(EscapeSql(t.id), version, q.eneatype, EscapeSql(q.title), q.id)
  {
    var q := t.questionnaires[j];
    var s := BlockStart(t.questionnaires, j);
    BlockLayout(EscapeSql(t.id), version, t.questionnaires, j);
    BuildSqlBlockIndex(t, version, includeTransaction, activate, force, now, s);
    BuildSqlBlockIndex(t, version, includeTransaction, activate, force, now, s + |q.items|);
  }

  /** Item `k` of questionnaire `j` follows its questionnaire's insert at
      offset `k + 1`, with order index `k + 1` and its escaped text. */
  lemma BuildSqlItem(t: TestDef, version: int, includeTransaction: bool, activate: bool, force: bool, now: string, j: nat, k: nat)
    requires j < |t.questionnaires| && k < |t.questionnaires[j].items|
    ensures var r := BuildSql(t, version, includeTransaction, activate, force, now);
      var p := HeaderLength(includeTransaction, activate, force) + BlockStart(t.questionnaires, j);
      var q := t.questionnaires[j];
      && p + 1 + k < |r|
      && r[p + 1 + k] == InsertItem(EscapeSql(t.id), version, q.eneatype, k + 1, EscapeSql(q.items[k]))
  {
    var q := t.questionnaires[j];
    var i := BlockStart(t.questionnaires, j) + 1 + k;
    var hl := HeaderLength(includeTransaction, activate, force);
    var bl := Blocks(EscapeSql(t.id), version, t.questionnaires);
    BlockItem(EscapeSql(t.id), version, t.questionnaires, j, k);
    assert bl[i] == InsertItem(EscapeSql(t.id), version, q.eneatype, k + 1, EscapeSql(q.items[k]));
    BuildSqlBlockIndex(t, version, includeTransaction, activate, force, now, i);
    assert BuildSql(t, version, includeTransaction, activate, force, now)[hl + i] == bl[i];
  }


  lemma {:induction false} UniformBlockStart(qs: seq<QuestionnaireDef>, n: nat, j: nat)
    requires j <= |qs|
    requires forall i :: 0 <= i < |qs| ==> |qs[i].items| == n
    ensures BlockStart(qs, j) == j * (1 + n)
  {
    if j > 0 {
      UniformBlockStart(qs[1..], n, j - 1);
    }
  }

  /** A validated definition produces 9 questionnaire inserts and 180 item
      inserts. */
  lemma ValidatedStatementCount(test: TestFile, version: int, includeTransaction: bool, activate: bool, force: bool, now: string)
    requires Validate(Some(test)).Ok?
    ensures |BuildSql(Validate(Some(test)).value, version, includeTransaction, activate, force, now)|
         == HeaderLength(includeTransaction, activate, force) + 189 + (if includeTransaction then 1 else 0)
  {
    var t := Validate(Some(test)).value;
    UniformBlockStart(t.questionnaires, ITEMS_PER_QUESTIONNAIRE, |t.questionnaires|);
    BlocksLength(EscapeSql(t.id), version, t.questionnaires);
  }

  // ---------------------------------------------------------------------
  // The SQLite loader's prepared statements

  /** The definition row as the SQLite loader binds it: the values
      themselves, unescaped, and `test.source_pdf ?? null`, so an empty
      source PDF is stored as the empty text. */
  function BoundColumns(t: TestDef, version: int, activate: bool, now: string): DefinitionColumns {
    DefinitionColumns(t.id, t.name, t.language, t.scaleMin, t.scaleMax, t.labelsJson, t.sourcePdf,
                      version, if activate then 1 else 0, now)
  }

  /** One questionnaire's insert followed by its items' inserts, each item
      going to the questionnaire row just inserted. */
  function SqliteBlock(definitionId: string, version: int, q: QuestionnaireDef): seq<Stmt> {
    [InsertQuestionnaire(definitionId, version, q.eneatype, q.title, q.id)]
    + seq(|q.items|, k requires 0 <= k < |q.items| => InsertItemIntoLast(k + 1, q.items[k]))
  }

  /** Offset 0 of a block is the questionnaire's insert, offset `o > 0` the
      insert of item `o - 1` with position `o`. */
  lemma SqliteBlockContents(definitionId: string, version: int, q: QuestionnaireDef, o: nat)
    requires o <= |q.items|
    ensures |SqliteBlock(definitionId, version, q)| == 1 + |q.items|
    ensures SqliteBlock(definitionId, version, q)[o]
         == if o == 0 then InsertQuestionnaire(definitionId, version, q.eneatype, q.title, q.id)
            else InsertItemIntoLast(o, q.items[o - 1])
  {
  }

  function SqliteBlocks(definitionId: string, version: int, qs: seq<QuestionnaireDef>): seq<Stmt> {
    if |qs| == 0 then [] else SqliteBlock(definitionId, version, qs[0]) + SqliteBlocks(definitionId, version, qs[1..])
  }

  /** The statements the SQLite loader's transaction runs. */
  function SqliteStatements(t: TestDef, version: int, activate: bool, force: bool, now: string): seq<Stmt> {
    Header(t.id, false, activate, force, BoundColumns(t, version, activate, now))
    + SqliteBlocks(t.id, version, t.questionnaires)
  }

  /** Statement `o` of questionnaire `j`'s block sits at `BlockStart(qs, j) + o`. */
  lemma {:induction false} SqliteBlockAt(definitionId: string, version: int, qs: seq<QuestionnaireDef>, j: nat, o: nat)
    requires j < |qs| && o <= |qs[j].items|
    ensures BlockStart(qs, j) + o < |SqliteBlocks(definitionId, version, qs)|
    ensures SqliteBlocks(definitionId, version, qs)[BlockStart(qs, j) + o] == SqliteBlock(definitionId, version, qs[j])[o]
  {
    var b := SqliteBlock(definitionId, version, qs[0]);
    var rest := SqliteBlocks(definitionId, version, qs[1..]);
    assert SqliteBlocks(definitionId, version, qs) == b + rest;
    SqliteBlockContents(definitionId, version, qs[0], 0);
    if j > 0 {
      SqliteBlockAt(definitionId, version, qs[1..], j - 1, o);
      assert qs[1..][j - 1] == qs[j];
      var p := BlockStart(qs[1..], j - 1);
      assert BlockStart(qs, j) == |b| + p;
      assert (b + rest)[|b| + p + o] == rest[p + o];
    } else {
      assert (b + rest)[o] == b[o];
    }
  }

  /** Statement `i` of the blocks is statement `HeaderLength + i` of the
      transaction. */
  lemma SqliteStatementAt(t: TestDef, version: int, activate: bool, force: bool, now: string, i: int)
    requires 0 <= i < |SqliteBlocks(t.id, version, t.questionnaires)|
    ensures HeaderLength(false, activate, force) + i < |SqliteStatements(t, version, activate, force, now)|
    ensures SqliteStatements(t, version, activate, force, now)[HeaderLength(false, activate, force) + i]
         == SqliteBlocks(t.id, version, t.questionnaires)[i]
  {
  }

  /** Offset `o` of questionnaire `j`'s block within the transaction. */
  lemma SqliteStatementOfBlock(t: TestDef, version: int, activate: bool, force: bool, now: string, j: nat, o: nat)
    requires j < |t.questionnaires| && o <= |t.questionnaires[j].items|
    ensures var p := HeaderLength(false, activate, force) + BlockStart(t.questionnaires, j);
      var q := t.questionnaires[j];
      && p + o < |SqliteStatements(t, version, activate, force, now)|
      && SqliteStatements(t, version, activate, force, now)[p + o]
         == if o == 0 then InsertQuestionnaire(t.id, version, q.eneatype, q.title, q.id)
            else InsertItemIntoLast(o, q.items[o - 1])
  {
    var s := BlockStart(t.questionnaires, j);
    SqliteBlockAt(t.id, version, t.questionnaires, j, o);
    SqliteBlockContents(t.id, version, t.questionnaires[j], o);
    SqliteStatementAt(t, version, activate, force, now, s + o);
  }

  /** Item `k` of questionnaire `j` goes to questionnaire `j`'s row: that
      row's insert opens the block, and only item inserts lie between it and
      the item, so it is the row inserted last before the item. */
  lemma SqliteItemsFollowTheirQuestionnaire(t: TestDef, version: int, activate: bool, force: bool, now: string, j: nat, k: nat)
    requires j < |t.questionnaires| && k < |t.questionnaires[j].items|
    ensures var r := SqliteStatements(t, version, activate, force, now);
      var p := HeaderLength(false, activate, force) + BlockStart(t.questionnaires, j);
      var q := t.questionnaires[j];
      && p + 1 + k < |r|
      && r[p] == InsertQuestionnaire(t.id, version, q.eneatype, q.title, q.id)
      && r[p + 1 + k] == InsertItemIntoLast(k + 1, q.items[k])
      && forall m :: p < m <= p + 1 + k ==> r[m].InsertItemIntoLast?
  {
    var r := SqliteStatements(t, version, activate, force, now);
    var p := HeaderLength(false, activate, force) + BlockStart(t.questionnaires, j);
    SqliteStatementOfBlock(t, version, activate, force, now, j, 0);
    SqliteStatementOfBlock(t, version, activate, force, now, j, 1 + k);
    forall m | p < m <= p + 1 + k
      ensures r[m].InsertItemIntoLast?
    {
      SqliteStatementOfBlock(t, version, activate, force, now, j, m - p);
    }
  }

  /** The SQLite loader's transaction holds no BEGIN or COMMIT statement; it
      deactivates, deletes, then updates and inserts the definition row with
      the bound values, and every other insert comes after. */
  lemma SqliteHeaderOrder(t: TestDef, version: int, activate: bool, force: bool, now: string)
    ensures var r := SqliteStatements(t, version, activate, force, now);
      var b := if activate then 1 else 0;
      var d := b + (if force then 3 else 0);
      && d + 2 <= |r|
      && (activate ==> r[0] == Deactivate(t.id))
      && (force ==> r[b] == DeleteResponses(t.id) && r[b + 1] == DeleteItems(t.id) && r[b + 2] == DeleteQuestionnaires(t.id))
      && r[d] == UpdateDefinition(BoundColumns(t, version, activate, now))
      && r[d + 1] == InsertDefinitionIfMissing(BoundColumns(t, version, activate, now))
      && (forall i :: 0 <= i < d ==> !r[i].IsInsert() && r[i] != Begin && r[i] != Commit)
  {
    var c := BoundColumns(t, version, activate, now);
    var h := Header(t.id, false, activate, force, c);
    var r := SqliteStatements(t, version, activate, force, now);
    assert r == h + SqliteBlocks(t.id, version, t.questionnaires);
    HeaderLayout(t.id, false, activate, force, c);
    HeaderOpening(t.id, false, activate, force, c);
    forall i | 0 <= i < |h|
      ensures r[i] == h[i]
    {
    }
  }

  /** An empty source PDF: `buildSql` writes NULL, since the empty text is
      falsy, while the SQLite loader binds the empty text itself. */
  lemma EmptySourcePdf(t: TestDef, version: int, activate: bool, now: string)
    requires t.sourcePdf == Some("")
    ensures Columns(t, version, activate, now).sourcePdf == None
    ensures BoundColumns(t, version, activate, now).sourcePdf == Some("")
  {
  }

  // ---------------------------------------------------------------------
  // Version selection

  /** A number used as a condition: `0` is falsy. */
  predicate Truthy(v: Option<int>) {
    v.Some? && v.value != 0
  }

  /** `nextVersion` of the SQLite loader: the explicit version (even 0),
      else one past a truthy maximum, else 1. */
  function SqliteNext(explicit: Option<int>, existing: Option<int>): int {
    if explicit.Some? then explicit.value else if Truthy(existing) then existing.value + 1 else 1
  }

  /** `targetVersion` of the SQLite loader. */
  function SqliteTarget(explicit: Option<int>, existing: Option<int>, force: bool): int {
    if force && Truthy(existing) then existing.value else SqliteNext(explicit, existing)
  }

  /** The result of a load: the version written and its statements. */
  datatype Load = Load(version: int, statements: seq<Stmt>)

  /** `loadWithSqlite(version)` over the versions already stored for the id:
      refuses an existing target without `--force`, otherwise runs its
      prepared statements inside one transaction. */
  function SqliteLoad(t: TestDef, explicit: Option<int>, storedVersions: seq<int>, activate: bool, force: bool, now: string): (r: Result<Load, string>)
    ensures var target := SqliteTarget(explicit, MaxOf(storedVersions), force);
      && (r.Err? <==> target in storedVersions && !force)
      && (r.Err? ==> r.error == "Version " + Text.IntToString(target) + " already exists. Use --force to replace.")
      && (r.Ok? ==> r.value == Load(target, SqliteStatements(t, target, activate, force, now)))
  {
    var target := SqliteTarget(explicit, MaxOf(storedVersions), force);
    if target in storedVersions && !force then
      Err("Version " + Text.IntToString(target) + " already exists. Use --force to replace.")
    else Ok(Load(target, SqliteStatements(t, target, activate, force, now)))
  }

  /** Without an explicit version the SQLite loader never collides: it picks
      one past the largest stored version, or 1 when that is 0 or absent. */
  lemma SqliteFreshVersion(t: TestDef, storedVersions: seq<int>, activate: bool, now: string)
    ensures SqliteLoad(t, None, storedVersions, activate, false, now).Ok?
    ensures var v := SqliteLoad(t, None, storedVersions, activate, false, now).value.version;
      v !in storedVersions && (|storedVersions| > 0 ==> forall i :: 0 <= i < |storedVersions| ==> storedVersions[i] < v)
  {
  }

  /** With `--force` the SQLite loader rewrites the largest stored version
      when there is a truthy one. */
  lemma SqliteForceRewritesLatest(t: TestDef, explicit: Option<int>, storedVersions: seq<int>, activate: bool, now: string)
    requires Truthy(MaxOf(storedVersions))
    ensures SqliteLoad(t, explicit, storedVersions, activate, true, now).Ok?
    ensures SqliteLoad(t, explicit, storedVersions, activate, true, now).value.version == MaxOf(storedVersions).value
  {
  }

  /** `getNextVersionWrangler(versionOverride)`: a truthy override, else one
      past a truthy current maximum, else 1. */
  function WranglerNext(override: Option<int>, current: Option<int>): (r: int)
    ensures Truthy(override) ==> r == override.value
    ensures !Truthy(override) && Truthy(current) ==> r == current.value + 1
    ensures !Truthy(override) && !Truthy(current) ==> r == 1
  {
    if Truthy(override) then override.value else if Truthy(current) then current.value + 1 else 1
  }

  /** The wrangler version as written: with `--force`, `nextVersion - 1 || 1`,
      which also steps back from an explicit override. */
  function WranglerVersion(override: Option<int>, current: Option<int>, force: bool): int {
    var next := WranglerNext(override, current);
    if force then (if next - 1 != 0 then next - 1 else 1) else next
  }

  /** `--wrangler --force --version 3`: the wrangler path writes version 2,
      the SQLite path writes version 3, with or without a stored version 3. */
  lemma WranglerForceOverrideStepsBack()
    ensures WranglerVersion(Some(3), Some(3), true) == 2
    ensures SqliteTarget(Some(3), Some(3), true) == 3
    ensures WranglerVersion(Some(3), None, true) == 2
    ensures SqliteTarget(Some(3), None, true) == 3
  {
  }

  /** The wrangler version with a forced load rewriting the stored maximum,
      as the SQLite loader does: with `--force`, the current maximum when
      truthy, else the override when truthy, else 1. The maximum is then
      needed even when an override is given. */
  function WranglerVersionCorrected(override: Option<int>, current: Option<int>, force: bool): (r: int)
    ensures force && Truthy(current) ==> r == current.value
    ensures force && !Truthy(current) ==> r == (if Truthy(override) then override.value else 1)
    ensures !force ==> r == WranglerNext(override, current)
  {
    if force then
      (if Truthy(current) then current.value else if Truthy(override) then override.value else 1)
    else WranglerNext(override, current)
  }

  /** The corrected wrangler version agrees with the SQLite loader's target
      whenever the override is not the falsy 0, and it differs from the
      as-written version only on a forced load with a truthy override. */
  lemma WranglerCorrectedAgreesWithSqlite(override: Option<int>, current: Option<int>, force: bool)
    requires override != Some(0)
    ensures WranglerVersionCorrected(override, current, force) == SqliteTarget(override, current, force)
    ensures WranglerVersionCorrected(override, current, force) != WranglerVersion(override, current, force) ==>
      force && Truthy(override)
  {
  }

  /** The wrangler load: `buildSql(version, false)` for the corrected version. */
  function WranglerLoad(t: TestDef, override: Option<int>, current: Option<int>, activate: bool, force: bool, now: string): (r: Load)
    ensures r.version == WranglerVersionCorrected(override, current, force)
    ensures forall i :: 0 <= i < |r.statements| ==> !r.statements[i].Begin? && !r.statements[i].Commit?
  {
    var v := WranglerVersionCorrected(override, current, force);
    BuildSqlTransaction(t, v, false, activate, force, now);
    Load(v, BuildSql(t, v, false, activate, force, now))
  }
}
